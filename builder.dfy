/**
 * `create_graph` of server_src/graph.py: files the building nodes, adds the
 * given edges with their distances as weights, rejecting an edge that names
 * a node outside the graph or one that is already there, then copies every
 * stair and elevator node onto each floor, wires each copy to the node
 * `get_closest_node` returns and chains the copies with weight-20 edges.
 *
 * The state after each phase is stated exactly in terms of the pure
 * functions below: `Filed` for the node table, `ResetRows` for the rows
 * `add_node` empties and `LinkAll` for a run of `add_edge` calls.
 */
module GraphBuilder {
  import opened Wrappers
  import opened Geometry
  import opened PathSearch
  import opened NavGraph
  import opened NodeIds

  /** One `add_edge` call: its two ends and the weight it stores. */
  datatype Wiring = Wiring(u: string, v: string, w: real)

  /** The call stores an entry for the unordered pair `{a, b}`. */
  predicate Joins(x: Wiring, a: string, b: string) {
    (x.u == a && x.v == b) || (x.u == b && x.v == a)
  }

  predicate Ends(adj: Adj, ws: seq<Wiring>) {
    forall i :: 0 <= i < |ws| ==> ws[i].u in adj && ws[i].v in adj
  }

  /** The adjacency map after the `add_edge` calls `ws`, in order. */
  function LinkAll(adj: Adj, ws: seq<Wiring>): (r: Adj)
    requires Ends(adj, ws)
    ensures r.Keys == adj.Keys
  {
    if |ws| == 0 then adj
    else
      var x := ws[|ws| - 1];
      Link(LinkAll(adj, ws[..|ws| - 1]), x.u, x.v, x.w)
  }

  lemma LinkAllSnoc(adj: Adj, ws: seq<Wiring>, x: Wiring)
    requires Ends(adj, ws) && x.u in adj && x.v in adj
    ensures Ends(adj, ws + [x]) && LinkAll(adj, ws + [x]) == Link(LinkAll(adj, ws), x.u, x.v, x.w)
  {
    assert (ws + [x])[..|ws|] == ws;
  }

  /** Some call of `ws` joins `a` and `b`. */
  predicate JoinedBy(ws: seq<Wiring>, a: string, b: string) {
    exists i :: 0 <= i < |ws| && Joins(ws[i], a, b)
  }

  lemma JoinedBySnoc(ws: seq<Wiring>, a: string, b: string)
    requires |ws| > 0
    ensures JoinedBy(ws, a, b) <==> JoinedBy(ws[..|ws| - 1], a, b) || Joins(ws[|ws| - 1], a, b)
  {
    var p := ws[..|ws| - 1];
    if JoinedBy(p, a, b) {
      var i :| 0 <= i < |p| && Joins(p[i], a, b);
      assert Joins(ws[i], a, b);
    }
    if JoinedBy(ws, a, b) {
      var i :| 0 <= i < |ws| && Joins(ws[i], a, b);
      if i < |p| {
        assert Joins(p[i], a, b);
      }
    }
  }

  /** After one call, `b` is a neighbour of `a` iff it was one before or the call joined the two. */
  lemma LinkNeighbours(adj: Adj, x: Wiring, a: string, b: string)
    requires x.u in adj && x.v in adj && a in adj
    ensures b in Link(adj, x.u, x.v, x.w)[a] <==> b in adj[a] || Joins(x, a, b)
  {
    LinkOthers(adj, x.u, x.v, x.w);
  }

  /** After the calls, `b` is a neighbour of `a` iff it was one before or some call joined the two. */
  lemma {:induction false} LinkAllNeighbours(adj: Adj, ws: seq<Wiring>, a: string, b: string)
    requires Ends(adj, ws) && a in adj
    ensures b in LinkAll(adj, ws)[a] <==> b in adj[a] || JoinedBy(ws, a, b)
  {
    if |ws| > 0 {
      var p := ws[..|ws| - 1];
      LinkAllNeighbours(adj, p, a, b);
      JoinedBySnoc(ws, a, b);
      LinkNeighbours(LinkAll(adj, p), ws[|ws| - 1], a, b);
    }
  }

  /** An entry no call joins keeps its weight. */
  lemma {:induction false} LinkAllUntouched(adj: Adj, ws: seq<Wiring>, a: string, b: string)
    requires Ends(adj, ws) && a in adj && b in adj[a]
    requires forall j :: 0 <= j < |ws| ==> !Joins(ws[j], a, b)
    ensures b in LinkAll(adj, ws)[a] && LinkAll(adj, ws)[a][b] == adj[a][b]
  {
    if |ws| > 0 {
      var p := ws[..|ws| - 1];
      LinkAllUntouched(adj, p, a, b);
      LinkOthers(LinkAll(adj, p), ws[|ws| - 1].u, ws[|ws| - 1].v, ws[|ws| - 1].w);
    }
  }

  /** A joined pair holds, in both orientations, the weight of the last call that joined it. */
  lemma {:induction false} LinkAllLast(adj: Adj, ws: seq<Wiring>, i: int)
    requires Ends(adj, ws) && 0 <= i < |ws|
    requires forall j :: i < j < |ws| ==> !Joins(ws[j], ws[i].u, ws[i].v)
    ensures var r := LinkAll(adj, ws);
      && ws[i].v in r[ws[i].u] && r[ws[i].u][ws[i].v] == ws[i].w
      && ws[i].u in r[ws[i].v] && r[ws[i].v][ws[i].u] == ws[i].w
  {
    var p := ws[..|ws| - 1];
    var x := ws[|ws| - 1];
    if i < |ws| - 1 {
      LinkAllLast(adj, p, i);
      assert !Joins(x, ws[i].u, ws[i].v);
      LinkOthers(LinkAll(adj, p), x.u, x.v, x.w);
    }
  }

  /** The calls keep every entry whose two ends lie outside `X` when each call has an end in `X`. */
  lemma LinkAllKeeps(adj: Adj, ws: seq<Wiring>, X: set<string>)
    requires Ends(adj, ws)
    requires forall j :: 0 <= j < |ws| ==> ws[j].u in X || ws[j].v in X
    ensures Keeps(adj, LinkAll(adj, ws), X)
  {
    forall a, b | a !in X && b !in X && a in adj && b in adj[a]
      ensures b in LinkAll(adj, ws)[a] && LinkAll(adj, ws)[a][b] == adj[a][b]
    {
      LinkAllUntouched(adj, ws, a, b);
    }
  }

  lemma {:induction false} LinkAllClosed(adj: Adj, ws: seq<Wiring>)
    requires Ends(adj, ws) && Closed(adj)
    ensures Closed(LinkAll(adj, ws))
  {
    if |ws| > 0 {
      var x := ws[|ws| - 1];
      LinkAllClosed(adj, ws[..|ws| - 1]);
      LinkClosed(LinkAll(adj, ws[..|ws| - 1]), x.u, x.v, x.w);
    }
  }

  lemma {:induction false} LinkAllSymmetric(adj: Adj, ws: seq<Wiring>)
    requires Ends(adj, ws) && IsSymmetric(adj)
    ensures IsSymmetric(LinkAll(adj, ws))
  {
    if |ws| > 0 {
      var x := ws[|ws| - 1];
      LinkAllSymmetric(adj, ws[..|ws| - 1]);
      LinkSymmetric(LinkAll(adj, ws[..|ws| - 1]), x.u, x.v, x.w);
    }
  }

  lemma {:induction false} LinkAllNonNegative(adj: Adj, ws: seq<Wiring>)
    requires Ends(adj, ws) && NonNegative(adj)
    requires forall j :: 0 <= j < |ws| ==> ws[j].w >= 0.0
    ensures NonNegative(LinkAll(adj, ws))
  {
    if |ws| > 0 {
      var x := ws[|ws| - 1];
      LinkAllNonNegative(adj, ws[..|ws| - 1]);
      LinkNonNegative(LinkAll(adj, ws[..|ws| - 1]), x.u, x.v, x.w);
    }
  }

  /** `b` keeps every entry of `a` between two nodes outside `X`. */
  ghost predicate Keeps(a: Adj, b: Adj, X: set<string>) {
    forall x, y {:trigger a[x][y]} :: x !in X && y !in X && x in a && y in a[x] ==>
      x in b && y in b[x] && b[x][y] == a[x][y]
  }

  lemma KeepsUnion(a: Adj, b: Adj, c: Adj, X: set<string>, Y: set<string>, Z: set<string>)
    requires Keeps(a, b, X) && Keeps(b, c, Y) && X <= Z && Y <= Z
    ensures Keeps(a, c, Z)
  {
    forall x, y | x !in Z && y !in Z && x in a && y in a[x] ensures x in c && y in c[x] && c[x][y] == a[x][y] {
      assert b[x][y] == a[x][y];
    }
  }

  /** The ids of a sequence of nodes. */
  function IdsOf(ns: seq<Node>): set<string> {
    set i | 0 <= i < |ns| :: ns[i].id
  }

  lemma IdsOfAppend(a: seq<Node>, b: seq<Node>)
    ensures IdsOf(a + b) == IdsOf(a) + IdsOf(b)
  {
    forall x | x in IdsOf(a + b) ensures x in IdsOf(a) + IdsOf(b) {
      var i :| 0 <= i < |a + b| && (a + b)[i].id == x;
      if i >= |a| {
        assert b[i - |a|].id == x;
      }
    }
    forall x | x in IdsOf(a) + IdsOf(b) ensures x in IdsOf(a + b) {
      if x in IdsOf(a) {
        var i :| 0 <= i < |a| && a[i].id == x;
        assert (a + b)[i].id == x;
      } else {
        var i :| 0 <= i < |b| && b[i].id == x;
        assert (a + b)[|a| + i].id == x;
      }
    }
  }

  lemma IdsOfWithin(a: seq<Node>, b: seq<Node>)
    ensures IdsOf(a) <= IdsOf(a + b) && IdsOf(b) <= IdsOf(a + b)
  {
    IdsOfAppend(a, b);
  }

  /** The node table after `add_node` on each node of `ns`, in order: a later node with the same id wins. */
  function Filed(m: map<string, Node>, ns: seq<Node>): map<string, Node> {
    if |ns| == 0 then m
    else
      var n := ns[|ns| - 1];
      Filed(m, ns[..|ns| - 1])[n.id := n]
  }

  lemma {:induction false} FiledKeys(m: map<string, Node>, ns: seq<Node>)
    ensures Filed(m, ns).Keys == m.Keys + IdsOf(ns)
  {
    if |ns| > 0 {
      FiledKeys(m, ns[..|ns| - 1]);
      IdsOfAppend(ns[..|ns| - 1], [ns[|ns| - 1]]);
      assert ns[..|ns| - 1] + [ns[|ns| - 1]] == ns;
    }
  }

  /** An id that no node of `ns` has keeps its entry. */
  lemma {:induction false} FiledOthers(m: map<string, Node>, ns: seq<Node>, x: string)
    requires x in m && x !in IdsOf(ns)
    ensures x in Filed(m, ns) && Filed(m, ns)[x] == m[x]
  {
    if |ns| > 0 {
      assert ns[|ns| - 1].id != x;
      FiledOthers(m, ns[..|ns| - 1], x);
    }
  }

  /** The node filed under an id is the last node of `ns` with that id. */
  lemma {:induction false} FiledLast(m: map<string, Node>, ns: seq<Node>, i: int)
    requires 0 <= i < |ns| && forall j :: i < j < |ns| ==> ns[j].id != ns[i].id
    ensures ns[i].id in Filed(m, ns) && Filed(m, ns)[ns[i].id] == ns[i]
  {
    if i < |ns| - 1 {
      FiledLast(m, ns[..|ns| - 1], i);
    }
  }

  lemma {:induction false} FiledAppend(m: map<string, Node>, a: seq<Node>, b: seq<Node>)
    ensures Filed(Filed(m, a), b) == Filed(m, a + b)
  {
    if |b| > 0 {
      var n := b[|b| - 1];
      FiledAppend(m, a, b[..|b| - 1]);
      assert (a + b)[..|a + b| - 1] == a + b[..|b| - 1];
      assert (a + b)[|a + b| - 1] == n;
      calc {
        Filed(m, a + b);
        Filed(m, a + b[..|b| - 1])[n.id := n];
        Filed(Filed(m, a), b[..|b| - 1])[n.id := n];
        Filed(Filed(m, a), b);
      }
    } else {
      assert a + b == a;
    }
  }

  /** The adjacency map after `add_node` on each node of `ns`: each of their rows is emptied or created empty. */
  function ResetRows(adj: Adj, ns: seq<Node>): Adj {
    map x | x in adj.Keys + IdsOf(ns) :: if x in IdsOf(ns) then map[] else adj[x]
  }

  lemma ResetRowsSnoc(adj: Adj, ns: seq<Node>, n: Node)
    ensures ResetRows(adj, ns + [n]) == ResetRows(adj, ns)[n.id := map[]]
  {
    IdsOfAppend(ns, [n]);
    assert IdsOf([n]) == {n.id};
  }

  lemma ResetRowsClosed(adj: Adj, ns: seq<Node>)
    requires Closed(adj)
    ensures Closed(ResetRows(adj, ns))
  {
  }

  /** Resetting rows keeps every entry outside the reset rows, and so only adds or empties rows. */
  lemma ResetRowsKeeps(adj: Adj, ns: seq<Node>)
    ensures Keeps(adj, ResetRows(adj, ns), IdsOf(ns))
  {
  }

  lemma ResetRowsNonNegative(adj: Adj, ns: seq<Node>)
    requires NonNegative(adj)
    ensures NonNegative(ResetRows(adj, ns))
  {
    var r := ResetRows(adj, ns);
    forall x, y | x in r && y in r[x] ensures r[x][y] >= 0.0 {
      assert x !in IdsOf(ns);
    }
  }

  /** Creating empty rows for new ids keeps a closed adjacency map symmetric. */
  lemma ResetRowsSymmetric(adj: Adj, ns: seq<Node>)
    requires Closed(adj) && IsSymmetric(adj) && IdsOf(ns) !! adj.Keys
    ensures IsSymmetric(ResetRows(adj, ns))
  {
    var r := ResetRows(adj, ns);
    forall x, y | x in r && y in r[x] ensures y in r && x in r[y] && r[y][x] == r[x][y] {
      assert x !in IdsOf(ns);
      assert y in adj;
    }
  }

  /** The building nodes of `nodes`, in order: the nodes the first loop of `create_graph` files. */
  function Buildings(nodes: seq<Node>): seq<Node> {
    if |nodes| == 0 then []
    else
      var n := nodes[|nodes| - 1];
      Buildings(nodes[..|nodes| - 1]) + (if n.nodeType == Building then [n] else [])
  }

  /** Exactly the building nodes of `nodes` are in `Buildings(nodes)`. */
  lemma {:induction false} BuildingsMembers(nodes: seq<Node>, n: Node)
    ensures n in Buildings(nodes) <==> n in nodes && n.nodeType == Building
  {
    if |nodes| > 0 {
      BuildingsMembers(nodes[..|nodes| - 1], n);
      assert nodes == nodes[..|nodes| - 1] + [nodes[|nodes| - 1]];
    }
  }

  /** Some building node among the first `i` nodes lies on floor 0. */
  predicate FloorZeroBefore(nodes: seq<Node>, i: int)
    requires 0 <= i <= |nodes|
  {
    i > 0 && (FloorZeroBefore(nodes, i - 1) || (nodes[i - 1].nodeType == Building && nodes[i - 1].floor == Some(0)))
  }

  lemma {:induction false} FloorZeroBeforeMeans(nodes: seq<Node>, i: int)
    requires 0 <= i <= |nodes|
    ensures FloorZeroBefore(nodes, i) <==>
      exists j :: 0 <= j < i && nodes[j].nodeType == Building && nodes[j].floor == Some(0)
  {
    if i > 0 {
      FloorZeroBeforeMeans(nodes, i - 1);
    }
  }

  /** Some stair or elevator node comes among the first `i` nodes. */
  predicate CopiedBefore(nodes: seq<Node>, i: int)
    requires 0 <= i <= |nodes|
  {
    i > 0 && (CopiedBefore(nodes, i - 1) || nodes[i - 1].nodeType != Building)
  }

  lemma {:induction false} CopiedBeforeMeans(nodes: seq<Node>, i: int)
    requires 0 <= i <= |nodes|
    ensures CopiedBefore(nodes, i) <==> exists j :: 0 <= j < i && nodes[j].nodeType != Building
  {
    if i > 0 {
      CopiedBeforeMeans(nodes, i - 1);
    }
  }

  /** An adjacency map with an empty row for each id. */
  function EmptyRows(ids: set<string>): (r: Adj)
    ensures r.Keys == ids && forall x :: x in r ==> r[x] == map[]
  {
    map x | x in ids :: map[]
  }

  /** The error, if any, the checks of `create_graph`'s second loop raise on edge `i`, given the edges before it. */
  function BadEdge(adj: Adj, edges: seq<(string, string)>, i: int): Option<GraphError>
    requires 0 <= i < |edges|
  {
    var (u, v) := edges[i];
    if u !in adj then Some(InvalidEdge(u, v, u))
    else if v !in adj then Some(InvalidEdge(u, v, v))
    else if v in adj[u] || exists j :: 0 <= j < i && (edges[j] == (u, v) || edges[j] == (v, u)) then Some(DuplicateEdge(u, v))
    else None
  }

  /** The first error among the first `n` edges. */
  function EdgeError(adj: Adj, edges: seq<(string, string)>, n: int): Option<GraphError>
    requires 0 <= n <= |edges|
  {
    if n == 0 then None
    else match EdgeError(adj, edges, n - 1)
      case Some(e) => Some(e)
      case None => BadEdge(adj, edges, n - 1)
  }

  /** The `add_edge` calls of the second loop: each edge weighted by the distance between its ends. */
  function Wired(dist: (Location, Location) -> real, V: map<string, Node>, edges: seq<(string, string)>): (r: seq<Wiring>)
    requires forall i :: 0 <= i < |edges| ==> edges[i].0 in V && edges[i].1 in V
    ensures |r| == |edges|
    ensures forall i :: 0 <= i < |edges| ==>
      r[i] == Wiring(edges[i].0, edges[i].1, dist(V[edges[i].0].location, V[edges[i].1].location))
  {
    if |edges| == 0 then []
    else
      var e := edges[|edges| - 1];
      Wired(dist, V, edges[..|edges| - 1]) + [Wiring(e.0, e.1, dist(V[e.0].location, V[e.1].location))]
  }

  /** The copy of a stair or elevator node on `floor`. */
  function CopyNode(n: Node, floor: int): (r: Node)
    requires '.' in n.id
    ensures r.location == n.location && r.floor == Some(floor)
    ensures r.building == n.building && r.nodeType == n.nodeType
  {
    Node(CopyId(n.id, floor).value, n.location, Some(floor), n.building, n.nodeType)
  }

  /** The copies of one node on floors `0 ..< numFloors`, the nodes of one pass of the third loop. */
  function Copies(n: Node, numFloors: int): (r: seq<Node>)
    requires numFloors <= 0 || '.' in n.id
    ensures |r| == if numFloors <= 0 then 0 else numFloors
    ensures forall f :: 0 <= f < |r| ==>
      r[f].location == n.location && r[f].floor == Some(f) && r[f].building == n.building && r[f].nodeType == n.nodeType
  {
    if numFloors <= 0 then [] else Copies(n, numFloors - 1) + [CopyNode(n, numFloors - 1)]
  }

  /** The copies on one more floor: the copy on the new floor, with the id `CopyId` gives, comes last. */
  lemma CopiesSnoc(n: Node, numFloors: int, id: string)
    requires 0 <= numFloors && Ok(id) == CopyId(n.id, numFloors)
    ensures '.' in n.id
    ensures Copies(n, numFloors + 1) == Copies(n, numFloors) + [Node(id, n.location, Some(numFloors), n.building, n.nodeType)]
  {
  }

  /** The copy on floor `f` is `CopyNode(n, f)`. */
  lemma {:induction false} CopiesAt(n: Node, numFloors: int, f: int)
    requires numFloors <= 0 || '.' in n.id
    requires 0 <= f < |Copies(n, numFloors)|
    ensures Copies(n, numFloors)[f] == CopyNode(n, f)
  {
    if f < numFloors - 1 {
      CopiesAt(n, numFloors - 1, f);
    }
  }

  /** The copies of one node have different ids. */
  lemma CopiesDistinct(n: Node, numFloors: int, a: int, b: int)
    requires numFloors <= 0 || '.' in n.id
    requires 0 <= a < b < |Copies(n, numFloors)|
    ensures Copies(n, numFloors)[a].id != Copies(n, numFloors)[b].id
  {
    CopiesAt(n, numFloors, a);
    CopiesAt(n, numFloors, b);
    CopyIdsDistinct(n.id, a, b);
  }

  /** The stair and elevator nodes among the first `n` have a segment 1 to replace, or there are no floors to copy onto. */
  predicate Copyable(nodes: seq<Node>, numFloors: int, n: int)
    requires 0 <= n <= |nodes|
  {
    numFloors <= 0 || forall k :: 0 <= k < n && nodes[k].nodeType != Building ==> '.' in nodes[k].id
  }

  /** The copies the third loop adds for the first `n` nodes, node by node and floor by floor. */
  function AllCopies(nodes: seq<Node>, numFloors: int, n: int): seq<Node>
    requires 0 <= n <= |nodes| && Copyable(nodes, numFloors, n)
  {
    if n == 0 then []
    else AllCopies(nodes, numFloors, n - 1) + (if nodes[n - 1].nodeType == Building then [] else Copies(nodes[n - 1], numFloors))
  }

  /** One more node's pass keeps the copies so far. */
  lemma AllCopiesGrow(nodes: seq<Node>, numFloors: int, n: int)
    requires 0 < n <= |nodes| && Copyable(nodes, numFloors, n)
    ensures Copyable(nodes, numFloors, n - 1)
    ensures IdsOf(AllCopies(nodes, numFloors, n - 1)) <= IdsOf(AllCopies(nodes, numFloors, n))
  {
    assert Copyable(nodes, numFloors, n - 1);
    var last := if nodes[n - 1].nodeType == Building then [] else Copies(nodes[n - 1], numFloors);
    IdsOfWithin(AllCopies(nodes, numFloors, n - 1), last);
  }

  /** One more node's pass over a stair or elevator node adds its copies. */
  lemma AllCopiesLast(nodes: seq<Node>, numFloors: int, n: int)
    requires 0 < n <= |nodes| && Copyable(nodes, numFloors, n) && nodes[n - 1].nodeType != Building
    ensures IdsOf(Copies(nodes[n - 1], numFloors)) <= IdsOf(AllCopies(nodes, numFloors, n))
  {
    assert Copyable(nodes, numFloors, n - 1);
    IdsOfWithin(AllCopies(nodes, numFloors, n - 1), Copies(nodes[n - 1], numFloors));
  }

  /** The copies of a stair or elevator node are among the copies of any longer prefix. */
  lemma {:induction false} CopiesInAll(nodes: seq<Node>, numFloors: int, j: int, n: int)
    requires 0 <= j < n <= |nodes| && Copyable(nodes, numFloors, n) && nodes[j].nodeType != Building
    ensures IdsOf(Copies(nodes[j], numFloors)) <= IdsOf(AllCopies(nodes, numFloors, n))
    decreases n
  {
    if j < n - 1 {
      AllCopiesGrow(nodes, numFloors, n);
      CopiesInAll(nodes, numFloors, j, n - 1);
    } else {
      AllCopiesLast(nodes, numFloors, n);
    }
  }

  /**
   * No copy id is the id of a building node or of an earlier node's copy:
   * then `add_node` never replaces a node while the third loop runs.
   */
  ghost predicate FreshCopies(nodes: seq<Node>, numFloors: int) {
    Copyable(nodes, numFloors, |nodes|) && FreshBefore(nodes, numFloors, |nodes|)
  }

  /** `FreshCopies` for the stair and elevator nodes among the first `n`. */
  ghost predicate FreshBefore(nodes: seq<Node>, numFloors: int, n: int)
    requires 0 <= n <= |nodes| && Copyable(nodes, numFloors, n)
  {
    n > 0 ==>
      && Copyable(nodes, numFloors, n - 1)
      && FreshBefore(nodes, numFloors, n - 1)
      && (nodes[n - 1].nodeType == Building ||
          IdsOf(Copies(nodes[n - 1], numFloors)) !! (IdsOf(Buildings(nodes)) + IdsOf(AllCopies(nodes, numFloors, n - 1))))
  }

  /** The copies of stair or elevator node `k` have fresh ids. */
  lemma {:induction false} FreshAt(nodes: seq<Node>, numFloors: int, n: int, k: int)
    requires 0 <= k < n <= |nodes| && Copyable(nodes, numFloors, n) && FreshBefore(nodes, numFloors, n)
    requires nodes[k].nodeType != Building
    ensures IdsOf(Copies(nodes[k], numFloors)) !! (IdsOf(Buildings(nodes)) + IdsOf(AllCopies(nodes, numFloors, k)))
  {
    if k < n - 1 {
      FreshAt(nodes, numFloors, n - 1, k);
    }
  }

  /**
   * The error, if any, of the third loop's pass over node `k`: a stair or
   * elevator id without a second segment raises `IndexError`; the first such
   * node raises on looking up floor 0 when no building node lies there
   * (every later pass finds the floor-0 copy of an earlier node). Nothing
   * is raised when there are no floors.
   */
  function CopyError(nodes: seq<Node>, numFloors: int, k: int): Option<GraphError>
    requires 0 <= k < |nodes|
  {
    var n := nodes[k];
    if n.nodeType == Building || numFloors <= 0 then None
    else if '.' !in n.id then Some(IndexError)
    else if !FloorZeroBefore(nodes, |nodes|) && !CopiedBefore(nodes, k) then Some(UnknownFloor(Some(0)))
    else None
  }

  /** The first error of the third loop among the first `n` nodes. */
  function CopiesError(nodes: seq<Node>, numFloors: int, n: int): Option<GraphError>
    requires 0 <= n <= |nodes|
  {
    if n == 0 then None
    else match CopiesError(nodes, numFloors, n - 1)
      case Some(e) => Some(e)
      case None => CopyError(nodes, numFloors, n - 1)
  }

  /** What `create_graph` raises, if anything: the first bad edge, else the first failing copy. */
  function BuildError(nodes: seq<Node>, edges: seq<(string, string)>, numFloors: int): Option<GraphError> {
    match EdgeError(EmptyRows(IdsOf(Buildings(nodes))), edges, |edges|)
    case Some(e) => Some(e)
    case None => CopiesError(nodes, numFloors, |nodes|)
  }

  lemma FiledSnoc(m: map<string, Node>, ns: seq<Node>, n: Node)
    ensures Filed(m, ns + [n]) == Filed(m, ns)[n.id := n]
  {
    assert (ns + [n])[..|ns|] == ns;
  }

  lemma BuildingsSnoc(nodes: seq<Node>, i: int)
    requires 0 <= i < |nodes|
    ensures Buildings(nodes[..i + 1]) == Buildings(nodes[..i]) + (if nodes[i].nodeType == Building then [nodes[i]] else [])
  {
    assert nodes[..i + 1][..i] == nodes[..i];
  }

  /** The floor-0 index set, when there is one, is not empty. */
  ghost predicate FloorZeroFilled(floors: map<Option<int>, set<string>>) {
    Some(0) in floors ==> exists w :: w in floors[Some(0)]
  }

  /** One pass of the first loop of `create_graph`: `add_node` when node `i` is a building node. */
  method FileIfBuilding(g: Graph, nodes: seq<Node>, i: int, ghost V0: map<string, Node>, ghost A0: Adj,
                        ghost F0: map<Option<int>, set<string>>)
    requires 0 <= i < |nodes| && g.Valid()
    requires g.vertices == Filed(V0, Buildings(nodes[..i])) && g.adj == ResetRows(A0, Buildings(nodes[..i]))
    requires Some(0) in g.floors <==> Some(0) in F0 || FloorZeroBefore(nodes, i)
    requires FloorZeroFilled(F0) ==> FloorZeroFilled(g.floors)
    modifies g
    ensures g.Valid()
    ensures g.vertices == Filed(V0, Buildings(nodes[..i + 1])) && g.adj == ResetRows(A0, Buildings(nodes[..i + 1]))
    ensures Some(0) in g.floors <==> Some(0) in F0 || FloorZeroBefore(nodes, i + 1)
    ensures FloorZeroFilled(F0) ==> FloorZeroFilled(g.floors)
  {
    BuildingsSnoc(nodes, i);
    var node := nodes[i];
    if node.nodeType == Building {
      FiledSnoc(V0, Buildings(nodes[..i]), node);
      ResetRowsSnoc(A0, Buildings(nodes[..i]), node);
      g.AddNode(node);
      if node.floor == Some(0) {
        assert node.id in g.floors[Some(0)];
      }
    } else {
      assert Buildings(nodes[..i]) + [] == Buildings(nodes[..i]);
    }
  }

  /**
   * The first loop of `create_graph`: `add_node` on every building node, in
   * order. Floor 0 gets an index set exactly when some building node lies
   * there.
   */
  method AddBuildings(g: Graph, nodes: seq<Node>)
    requires g.Valid()
    modifies g
    ensures g.vertices == Filed(old(g.vertices), Buildings(nodes))
    ensures g.adj == ResetRows(old(g.adj), Buildings(nodes))
    ensures Some(0) in g.floors <==> Some(0) in old(g.floors) || FloorZeroBefore(nodes, |nodes|)
    ensures FloorZeroFilled(old(g.floors)) ==> FloorZeroFilled(g.floors)
    ensures g.Valid()
  {
    var i := 0;
    while i < |nodes|
      invariant 0 <= i <= |nodes|
      invariant g.Valid()
      invariant g.vertices == Filed(old(g.vertices), Buildings(nodes[..i]))
      invariant g.adj == ResetRows(old(g.adj), Buildings(nodes[..i]))
      invariant Some(0) in g.floors <==> Some(0) in old(g.floors) || FloorZeroBefore(nodes, i)
      invariant FloorZeroFilled(old(g.floors)) ==> FloorZeroFilled(g.floors)
    {
      FileIfBuilding(g, nodes, i, old(g.vertices), old(g.adj), old(g.floors));
      i := i + 1;
    }
    assert nodes[..i] == nodes;
  }

  /** Once an edge fails, the first error stays that one. */
  lemma {:induction false} EdgeErrorSticks(adj: Adj, edges: seq<(string, string)>, i: int, n: int)
    requires 0 <= i <= n <= |edges| && EdgeError(adj, edges, i).Some?
    ensures EdgeError(adj, edges, n) == EdgeError(adj, edges, i)
  {
    if n > i {
      EdgeErrorSticks(adj, edges, i, n - 1);
    }
  }

  /**
   * After replaying the first `i` edges, `v` is a neighbour of `u` iff it
   * was one before or one of those edges is `(u, v)` or `(v, u)`.
   */
  lemma WiredNeighbours(dist: (Location, Location) -> real, V: map<string, Node>, A0: Adj,
                        edges: seq<(string, string)>, i: int, u: string, v: string)
    requires 0 <= i <= |edges| && forall j :: 0 <= j < i ==> edges[j].0 in V && edges[j].1 in V
    requires Ends(A0, Wired(dist, V, edges[..i])) && u in A0
    ensures v in LinkAll(A0, Wired(dist, V, edges[..i]))[u] <==>
      v in A0[u] || exists j :: 0 <= j < i && (edges[j] == (u, v) || edges[j] == (v, u))
  {
    var ws := Wired(dist, V, edges[..i]);
    LinkAllNeighbours(A0, ws, u, v);
    forall j | 0 <= j < i ensures Joins(ws[j], u, v) <==> (edges[j] == (u, v) || edges[j] == (v, u)) {
      assert edges[..i][j] == edges[j];
    }
  }

  /** Replaying one more edge is one more `Link`. */
  lemma WiredSnoc(dist: (Location, Location) -> real, V: map<string, Node>, A0: Adj, edges: seq<(string, string)>, i: int)
    requires 0 <= i < |edges| && forall j :: 0 <= j <= i ==> edges[j].0 in V && edges[j].1 in V
    requires Ends(A0, Wired(dist, V, edges[..i])) && edges[i].0 in A0 && edges[i].1 in A0
    ensures Ends(A0, Wired(dist, V, edges[..i + 1]))
    ensures LinkAll(A0, Wired(dist, V, edges[..i + 1])) ==
      Link(LinkAll(A0, Wired(dist, V, edges[..i])), edges[i].0, edges[i].1, dist(V[edges[i].0].location, V[edges[i].1].location))
  {
    var (u, v) := edges[i];
    assert edges[..i + 1][..i] == edges[..i];
    var x := Wiring(u, v, dist(V[u].location, V[v].location));
    assert Wired(dist, V, edges[..i + 1]) == Wired(dist, V, edges[..i]) + [x];
    LinkAllSnoc(A0, Wired(dist, V, edges[..i]), x);
  }

  /** The edges before `i` all passed: their ends are nodes and their calls are replayed on `A0`. */
  ghost predicate EdgesAdded(dist: (Location, Location) -> real, V: map<string, Node>, adj: Adj,
                             edges: seq<(string, string)>, i: int, A0: Adj)
    requires 0 <= i <= |edges|
  {
    && EdgeError(A0, edges, i) == None
    && (forall j :: 0 <= j < i ==> edges[j].0 in V && edges[j].1 in V)
    && Ends(A0, Wired(dist, V, edges[..i]))
    && adj == LinkAll(A0, Wired(dist, V, edges[..i]))
  }

  /**
   * One pass of the second loop of `create_graph` over edge `i`: the
   * error it raises, if any, and otherwise the `add_edge` call with the
   * distance between the two ends.
   */
  method AddNextEdge(g: Graph, edges: seq<(string, string)>, i: int, ghost A0: Adj) returns (err: Option<GraphError>)
    requires 0 <= i < |edges| && g.Valid() && A0.Keys == g.vertices.Keys && EdgesAdded(g.dist, g.vertices, g.adj, edges, i, A0)
    modifies g
    ensures err == BadEdge(A0, edges, i)
    ensures g.vertices == old(g.vertices) && g.buildings == old(g.buildings)
    ensures g.floors == old(g.floors) && g.types == old(g.types)
    ensures g.Valid()
    ensures err.None? ==> EdgesAdded(g.dist, g.vertices, g.adj, edges, i + 1, A0)
  {
    var (u, v) := edges[i];
    if !g.ContainsNode(u) {
      return Some(InvalidEdge(u, v, u));
    }
    if !g.ContainsNode(v) {
      return Some(InvalidEdge(u, v, v));
    }
    ghost var A := g.adj;
    EdgeChecks(g.dist, g.vertices, A, edges, i, A0);
    if g.ContainsEdge(u, v) {
      return Some(DuplicateEdge(u, v));
    }
    var added := g.AddEdge(u, v, None);
    NextEdgeAdded(g.dist, g.vertices, A, edges, i, A0);
    err := None;
  }

  /** After the edges before `i`, the checks on edge `i` are membership tests on the current table and rows. */
  lemma EdgeChecks(dist: (Location, Location) -> real, V: map<string, Node>, A: Adj,
                   edges: seq<(string, string)>, i: int, A0: Adj)
    requires 0 <= i < |edges| && A0.Keys == V.Keys && EdgesAdded(dist, V, A, edges, i, A0)
    ensures var (u, v) := edges[i];
      BadEdge(A0, edges, i) == if u !in V then Some(InvalidEdge(u, v, u))
                               else if v !in V then Some(InvalidEdge(u, v, v))
                               else if v in A[u] then Some(DuplicateEdge(u, v))
                               else None
  {
    var (u, v) := edges[i];
    if u in V && v in V {
      WiredNeighbours(dist, V, A0, edges, i, u, v);
    }
  }

  /** Edge `i` passing its checks and linked with the distance between its ends extends the replay by one edge. */
  lemma NextEdgeAdded(dist: (Location, Location) -> real, V: map<string, Node>, A: Adj,
                      edges: seq<(string, string)>, i: int, A0: Adj)
    requires 0 <= i < |edges| && A0.Keys == V.Keys && EdgesAdded(dist, V, A, edges, i, A0)
    requires BadEdge(A0, edges, i) == None
    ensures edges[i].0 in V && edges[i].1 in V
    ensures EdgesAdded(dist, V, Link(A, edges[i].0, edges[i].1, dist(V[edges[i].0].location, V[edges[i].1].location)),
                       edges, i + 1, A0)
  {
    WiredSnoc(dist, V, A0, edges, i);
  }

  /**
   * The second loop of `create_graph`: for each edge, in order, an end
   * that is not a node raises (the first end checked first), an edge
   * already present in either orientation raises, and otherwise `add_edge`
   * stores it with the distance between its ends. Self-loops pass.
   */
  method AddEdges(g: Graph, edges: seq<(string, string)>) returns (r: Result<(), GraphError>)
    requires g.Valid()
    modifies g
    ensures r.Err? <==> EdgeError(old(g.adj), edges, |edges|).Some?
    ensures r.Err? ==> r.error == EdgeError(old(g.adj), edges, |edges|).value
    ensures g.vertices == old(g.vertices) && g.buildings == old(g.buildings)
    ensures g.floors == old(g.floors) && g.types == old(g.types)
    ensures r.Ok? ==> EdgesAdded(g.dist, g.vertices, g.adj, edges, |edges|, old(g.adj))
    ensures g.Valid()
  {
    ghost var A0 := g.adj;
    var i := 0;
    while i < |edges|
      invariant 0 <= i <= |edges|
      invariant g.Valid() && g.vertices == old(g.vertices) && g.buildings == old(g.buildings)
      invariant g.floors == old(g.floors) && g.types == old(g.types)
      invariant EdgesAdded(g.dist, g.vertices, g.adj, edges, i, A0)
    {
      var err := AddNextEdge(g, edges, i, A0);
      if err.Some? {
        EdgeErrorSticks(A0, edges, i + 1, |edges|);
        return Err(err.value);
      }
      i := i + 1;
    }
    r := Ok(());
  }

  /**
   * What the floor loop below raises for a node with id `id`, first failure
   * first: nothing when there are no floors, `IndexError` for an id without
   * a second segment, else what `get_closest_node` raises on floor 0.
   */
  function PlanError(id: string, numFloors: int, floors: map<Option<int>, set<string>>): Option<GraphError> {
    if numFloors <= 0 then None
    else if '.' !in id then Some(IndexError)
    else if Some(0) !in floors then Some(UnknownFloor(Some(0)))
    else if floors[Some(0)] == {} then Some(NoneAttribute)
    else None
  }

  /** Every node of `cl` is a closest node of `ids` to `p`. */
  ghost predicate AllClosest(dist: (Location, Location) -> real, V: map<string, Node>, ids: set<string>, p: Location,
                             cl: seq<string>)
    decreases |cl|
  {
    |cl| > 0 ==> AllClosest(dist, V, ids, p, cl[..|cl| - 1]) && IsClosest(dist, V, ids, p, cl[|cl| - 1])
  }

  lemma AllClosestSnoc(dist: (Location, Location) -> real, V: map<string, Node>, ids: set<string>, p: Location,
                       cl: seq<string>, c: string)
    requires (|cl| > 0 ==> AllClosest(dist, V, ids, p, cl)) && IsClosest(dist, V, ids, p, c)
    ensures AllClosest(dist, V, ids, p, cl + [c])
  {
    assert (cl + [c])[..|cl|] == cl;
  }

  lemma {:induction false} AllClosestAt(dist: (Location, Location) -> real, V: map<string, Node>, ids: set<string>,
                                        p: Location, cl: seq<string>, f: int)
    requires AllClosest(dist, V, ids, p, cl) && 0 <= f < |cl|
    ensures IsClosest(dist, V, ids, p, cl[f])
  {
    if f < |cl| - 1 {
      AllClosestAt(dist, V, ids, p, cl[..|cl| - 1], f);
    }
  }

  /**
   * The floor loop of the third loop of `create_graph` for one stair or
   * elevator node: for each floor, the copy's id (an id without a second
   * segment raises `IndexError`) and `get_closest_node` at the node's
   * location. Nothing is changed yet.
   */
  method PlanCopies(g: Graph, node: Node, numFloors: int) returns (r: Result<(seq<Node>, seq<string>), GraphError>)
    requires g.Valid()
    ensures r.Err? <==> PlanError(node.id, numFloors, g.floors).Some?
    ensures r.Err? ==> PlanError(node.id, numFloors, g.floors) == Some(r.error)
    ensures r.Ok? ==> (numFloors <= 0 || '.' in node.id) && r.value.0 == Copies(node, numFloors)
    ensures r.Ok? ==> |r.value.1| == |r.value.0|
    ensures r.Ok? && |r.value.1| > 0 ==>
      Some(0) in g.floors && AllClosest(g.dist, g.vertices, g.floors[Some(0)], node.location, r.value.1)
  {
    var nodesToAdd: seq<Node> := [];
    var closest: seq<string> := [];
    var floor := 0;
    while floor < numFloors
      invariant 0 <= floor && (floor <= numFloors || floor == 0)
      invariant floor > 0 ==> '.' in node.id && g.ContainsFloor(Some(0)) && g.floors[Some(0)] != {}
      invariant nodesToAdd == Copies(node, floor)
      invariant |closest| == floor
      invariant floor > 0 ==> AllClosest(g.dist, g.vertices, g.floors[Some(0)], node.location, closest)
    {
      var id := CopyId(node.id, floor);
      if id.Err? {
        return Err(id.error);
      }
      CopiesSnoc(node, floor, id.value);
      nodesToAdd := nodesToAdd + [Node(id.value, node.location, Some(floor), node.building, node.nodeType)];
      var c := g.GetClosestNode(node.location, Some(floor), Building);
      if c.Err? {
        return Err(c.error);
      }
      AllClosestSnoc(g.dist, g.vertices, g.floors[Some(0)], node.location, closest, c.value);
      closest := closest + [c.value];
      floor := floor + 1;
    }
    return Ok((nodesToAdd, closest));
  }

  /** One pass of the loop that files the copies: `add_node` on copy `i`. */
  method FileCopy(g: Graph, cs: seq<Node>, i: int, ghost V0: map<string, Node>, ghost A0: Adj,
                  ghost F0: map<Option<int>, set<string>>)
    requires 0 <= i < |cs| && g.Valid()
    requires g.vertices == Filed(V0, cs[..i]) && g.adj == ResetRows(A0, cs[..i])
    requires Some(0) in F0 ==> Some(0) in g.floors
    requires FloorZeroFilled(F0) ==> FloorZeroFilled(g.floors)
    requires i > 0 && cs[0].floor == Some(0) ==> Some(0) in g.floors && FloorZeroFilled(g.floors)
    modifies g
    ensures g.Valid()
    ensures g.vertices == Filed(V0, cs[..i + 1]) && g.adj == ResetRows(A0, cs[..i + 1])
    ensures Some(0) in F0 ==> Some(0) in g.floors
    ensures FloorZeroFilled(F0) ==> FloorZeroFilled(g.floors)
    ensures cs[0].floor == Some(0) ==> Some(0) in g.floors && FloorZeroFilled(g.floors)
  {
    assert cs[..i + 1] == cs[..i] + [cs[i]];
    FiledSnoc(V0, cs[..i], cs[i]);
    ResetRowsSnoc(A0, cs[..i], cs[i]);
    g.AddNode(cs[i]);
    if cs[i].floor == Some(0) {
      assert cs[i].id in g.floors[Some(0)];
    }
  }

  /** `add_node` on each copy, in order. */
  method AddCopies(g: Graph, cs: seq<Node>)
    requires g.Valid()
    modifies g
    ensures g.Valid()
    ensures g.vertices == Filed(old(g.vertices), cs) && g.adj == ResetRows(old(g.adj), cs)
    ensures Some(0) in old(g.floors) ==> Some(0) in g.floors
    ensures FloorZeroFilled(old(g.floors)) ==> FloorZeroFilled(g.floors)
    ensures |cs| > 0 && cs[0].floor == Some(0) ==> Some(0) in g.floors && FloorZeroFilled(g.floors)
    ensures cs == [] ==> g.floors == old(g.floors)
  {
    var i := 0;
    assert cs[..0] == [];
    assert ResetRows(old(g.adj), []) == old(g.adj);
    while i < |cs|
      invariant 0 <= i <= |cs| && g.Valid()
      invariant g.vertices == Filed(old(g.vertices), cs[..i]) && g.adj == ResetRows(old(g.adj), cs[..i])
      invariant Some(0) in old(g.floors) ==> Some(0) in g.floors
      invariant FloorZeroFilled(old(g.floors)) ==> FloorZeroFilled(g.floors)
      invariant i > 0 && cs[0].floor == Some(0) ==> Some(0) in g.floors && FloorZeroFilled(g.floors)
      invariant cs == [] ==> g.floors == old(g.floors)
    {
      FileCopy(g, cs, i, old(g.vertices), old(g.adj), old(g.floors));
      i := i + 1;
    }
    assert cs[..i] == cs;
  }

  /** An `add_edge` call as written: two ids and an optional weight. */
  datatype Call = Call(u: string, v: string, weight: Option<real>)

  /** Both ends of every call are nodes of `V`. */
  predicate Placed(V: map<string, Node>, calls: seq<Call>) {
    forall i :: 0 <= i < |calls| ==> calls[i].u in V && calls[i].v in V
  }

  /** The weights the calls store: the given one, or the distance in `V` between the two ends. */
  function Weighted(dist: (Location, Location) -> real, V: map<string, Node>, calls: seq<Call>): (r: seq<Wiring>)
    requires Placed(V, calls)
    ensures |r| == |calls|
    ensures forall i :: 0 <= i < |calls| ==> r[i].u == calls[i].u && r[i].v == calls[i].v
    ensures forall i :: 0 <= i < |calls| ==>
      r[i].w == if calls[i].weight.None? then dist(V[calls[i].u].location, V[calls[i].v].location) else calls[i].weight.value
  {
    if |calls| == 0 then []
    else
      var c := calls[|calls| - 1];
      Weighted(dist, V, calls[..|calls| - 1]) +
        [Wiring(c.u, c.v, if c.weight.None? then dist(V[c.u].location, V[c.v].location) else c.weight.value)]
  }

  /** The calls before `i` are replayed on `A0`; every call's ends are nodes of `g`. */
  ghost predicate CallsAdded(g: Graph, calls: seq<Call>, i: int, A0: Adj)
    requires 0 <= i <= |calls|
    reads g
  {
    && A0.Keys == g.vertices.Keys
    && Placed(g.vertices, calls)
    && Ends(A0, Weighted(g.dist, g.vertices, calls[..i]))
    && g.adj == LinkAll(A0, Weighted(g.dist, g.vertices, calls[..i]))
  }

  /** `add_edge` for each call, in order, on nodes that are all there. */
  method AddCalls(g: Graph, calls: seq<Call>)
    requires g.Valid() && Placed(g.vertices, calls)
    modifies g
    ensures g.vertices == old(g.vertices) && g.buildings == old(g.buildings)
    ensures g.floors == old(g.floors) && g.types == old(g.types)
    ensures Ends(old(g.adj), Weighted(g.dist, g.vertices, calls))
    ensures g.adj == LinkAll(old(g.adj), Weighted(g.dist, g.vertices, calls))
    ensures g.Valid()
  {
    var i := 0;
    assert calls[..0] == [];
    while i < |calls|
      invariant 0 <= i <= |calls| && g.Valid()
      invariant g.vertices == old(g.vertices) && g.buildings == old(g.buildings)
      invariant g.floors == old(g.floors) && g.types == old(g.types)
      invariant CallsAdded(g, calls, i, old(g.adj))
    {
      AddCall(g, calls, i, old(g.adj));
      i := i + 1;
    }
    assert calls[..i] == calls;
  }

  /** One pass of `AddCalls`. */
  method AddCall(g: Graph, calls: seq<Call>, i: int, ghost A0: Adj)
    requires 0 <= i < |calls| && g.Valid() && CallsAdded(g, calls, i, A0)
    modifies g
    ensures g.vertices == old(g.vertices) && g.buildings == old(g.buildings)
    ensures g.floors == old(g.floors) && g.types == old(g.types)
    ensures CallsAdded(g, calls, i + 1, A0)
    ensures g.Valid()
  {
    var c := calls[i];
    WeightedSnoc(g.dist, g.vertices, A0, calls, i);
    var added := g.AddEdge(c.u, c.v, c.weight);
  }

  /** Replaying one more call links its two ends with the weight it stores. */
  lemma WeightedSnoc(dist: (Location, Location) -> real, V: map<string, Node>, A0: Adj, calls: seq<Call>, i: int)
    requires 0 <= i < |calls| && forall j :: 0 <= j <= i ==> calls[j].u in V && calls[j].v in V
    requires Ends(A0, Weighted(dist, V, calls[..i])) && calls[i].u in A0 && calls[i].v in A0
    ensures Ends(A0, Weighted(dist, V, calls[..i + 1]))
    ensures LinkAll(A0, Weighted(dist, V, calls[..i + 1])) ==
      Link(LinkAll(A0, Weighted(dist, V, calls[..i])), calls[i].u, calls[i].v,
           if calls[i].weight.None? then dist(V[calls[i].u].location, V[calls[i].v].location) else calls[i].weight.value)
  {
    var c := calls[i];
    assert calls[..i + 1][..i] == calls[..i];
    var x := Wiring(c.u, c.v, if c.weight.None? then dist(V[c.u].location, V[c.v].location) else c.weight.value);
    assert Weighted(dist, V, calls[..i + 1]) == Weighted(dist, V, calls[..i]) + [x];
    LinkAllSnoc(A0, Weighted(dist, V, calls[..i]), x);
  }

  /** `edges_to_add`: each copy with the node closest to it, weighted by their distance. */
  function ClosestCalls(cs: seq<Node>, closest: seq<string>): (r: seq<Call>)
    requires |closest| == |cs|
    ensures |r| == |cs| && forall f :: 0 <= f < |cs| ==> r[f] == Call(cs[f].id, closest[f], None)
  {
    if |cs| == 0 then [] else ClosestCalls(cs[..|cs| - 1], closest[..|cs| - 1]) + [Call(cs[|cs| - 1].id, closest[|cs| - 1], None)]
  }

  /** The "altitude" edges: each copy with the next floor's copy, weight 20. */
  function AltitudeCalls(cs: seq<Node>): (r: seq<Call>)
    ensures |r| == if |cs| == 0 then 0 else |cs| - 1
    ensures forall f {:trigger r[f]} :: 0 <= f < |r| ==> r[f] == Call(cs[f].id, cs[f + 1].id, Some(20.0))
  {
    if |cs| <= 1 then [] else AltitudeCalls(cs[..|cs| - 1]) + [Call(cs[|cs| - 2].id, cs[|cs| - 1].id, Some(20.0))]
  }

  /**
   * One pass of the third loop of `create_graph` over a stair or elevator
   * node: raises as `PlanCopies` does, leaving the graph as it was;
   * otherwise files the copies, adds the edge from each copy to its
   * closest node, then the altitude edges. `closest` (ghost) is what
   * `get_closest_node` returned for each floor.
   */
  method AddFloorCopies(g: Graph, node: Node, numFloors: int) returns (r: Result<(), GraphError>, ghost closest: seq<string>)
    requires g.Valid()
    modifies g
    ensures r.Err? <==> PlanError(node.id, numFloors, old(g.floors)).Some?
    ensures r.Err? ==> PlanError(node.id, numFloors, old(g.floors)) == Some(r.error)
    ensures r.Err? ==> unchanged(g)
    ensures g.Valid()
    ensures r.Ok? ==> numFloors <= 0 || '.' in node.id
    ensures r.Ok? ==> |closest| == |Copies(node, numFloors)|
    ensures r.Ok? ==> forall f :: 0 <= f < |closest| ==>
      Some(0) in old(g.floors) && IsClosest(g.dist, old(g.vertices), old(g.floors[Some(0)]), node.location, closest[f])
    ensures r.Ok? ==> g.vertices == Filed(old(g.vertices), Copies(node, numFloors))
    ensures r.Ok? ==> CopiesWired(g.dist, g.vertices, old(g.adj), Copies(node, numFloors), closest, g.adj)
    ensures Some(0) in old(g.floors) ==> Some(0) in g.floors
    ensures FloorZeroFilled(old(g.floors)) ==> FloorZeroFilled(g.floors)
    ensures r.Ok? && numFloors > 0 ==> Some(0) in g.floors && FloorZeroFilled(g.floors)
    ensures numFloors <= 0 ==> g.floors == old(g.floors)
  {
    var plan := PlanCopies(g, node, numFloors);
    if plan.Err? {
      return Err(plan.error), [];
    }
    var (cs, cl) := plan.value;
    closest := cl;
    forall f | 0 <= f < |closest|
      ensures Some(0) in g.floors && IsClosest(g.dist, g.vertices, g.floors[Some(0)], node.location, closest[f])
    {
      AllClosestAt(g.dist, g.vertices, g.floors[Some(0)], node.location, closest, f);
    }
    WireCopies(g, cs, cl);
    r := Ok(());
  }

  /**
   * The Ok path of `AddFloorCopies` once the copies `cs` and their closest
   * nodes `closest` are known: `add_node` on each copy, then the two runs of
   * `add_edge`.
   */
  method WireCopies(g: Graph, cs: seq<Node>, closest: seq<string>)
    requires g.Valid() && |closest| == |cs|
    requires forall f :: 0 <= f < |closest| ==> closest[f] in g.vertices
    modifies g
    ensures g.Valid()
    ensures g.vertices == Filed(old(g.vertices), cs)
    ensures CopiesWired(g.dist, g.vertices, old(g.adj), cs, closest, g.adj)
    ensures Some(0) in old(g.floors) ==> Some(0) in g.floors
    ensures FloorZeroFilled(old(g.floors)) ==> FloorZeroFilled(g.floors)
    ensures |cs| > 0 && cs[0].floor == Some(0) ==> Some(0) in g.floors && FloorZeroFilled(g.floors)
    ensures cs == [] ==> g.floors == old(g.floors)
  {
    ghost var V0 := g.vertices;
    AddCopies(g, cs);
    FiledKeys(V0, cs);
    var toClosest := ClosestCalls(cs, closest);
    forall f | 0 <= f < |cs| ensures toClosest[f].u in g.vertices && toClosest[f].v in g.vertices {
      assert cs[f].id in IdsOf(cs);
    }
    AddCalls(g, toClosest);
    var altitude := AltitudeCalls(cs);
    forall f | 0 <= f < |altitude| ensures altitude[f].u in g.vertices && altitude[f].v in g.vertices {
      assert altitude[f] == Call(cs[f].id, cs[f + 1].id, Some(20.0));
      assert cs[f].id in IdsOf(cs) && cs[f + 1].id in IdsOf(cs);
    }
    AddCalls(g, altitude);
  }

  /**
   * `adj` is what one pass of the third loop leaves: the copies' rows reset
   * in `A0`, then the closest-node calls, then the altitude calls, with
   * distances taken in the node table `V` after filing the copies.
   */
  ghost predicate CopiesWired(dist: (Location, Location) -> real, V: map<string, Node>, A0: Adj,
                             cs: seq<Node>, closest: seq<string>, adj: Adj)
  {
    && |closest| == |cs|
    && Placed(V, ClosestCalls(cs, closest)) && Placed(V, AltitudeCalls(cs))
    && var A1 := ResetRows(A0, cs);
       var W1 := Weighted(dist, V, ClosestCalls(cs, closest));
       var W2 := Weighted(dist, V, AltitudeCalls(cs));
       && Ends(A1, W1) && Ends(LinkAll(A1, W1), W2)
       && adj == LinkAll(LinkAll(A1, W1), W2)
  }

  /** `a` and `b` are joined both ways with weight `w`. */
  predicate HasEdge(adj: Adj, a: string, b: string, w: real) {
    a in adj && b in adj[a] && adj[a][b] == w && b in adj && a in adj[b] && adj[b][a] == w
  }

  /** No two nodes of `ns` share an id. */
  predicate DistinctIds(ns: seq<Node>) {
    forall a, b :: 0 <= a < b < |ns| ==> ns[a].id != ns[b].id
  }

  /** Each copy is joined to the next floor's copy with weight 20. */
  ghost predicate Altitude(adj: Adj, cs: seq<Node>) {
    forall f, h :: 0 <= f && h == f + 1 && h < |cs| ==> HasEdge(adj, cs[f].id, cs[h].id, 20.0)
  }

  /** The copies of one node have distinct ids. */
  lemma CopiesDistinctIds(n: Node, numFloors: int)
    requires numFloors <= 0 || '.' in n.id
    ensures DistinctIds(Copies(n, numFloors))
  {
    forall a, b | 0 <= a < b < |Copies(n, numFloors)| ensures Copies(n, numFloors)[a].id != Copies(n, numFloors)[b].id {
      CopiesDistinct(n, numFloors, a, b);
    }
  }

  /** One pass of the third loop touches only entries in the rows and columns of the copies. */
  lemma CopiesWiredKeeps(dist: (Location, Location) -> real, V: map<string, Node>, A0: Adj,
                         cs: seq<Node>, closest: seq<string>, adj: Adj)
    requires CopiesWired(dist, V, A0, cs, closest, adj)
    ensures Keeps(A0, adj, IdsOf(cs))
  {
    var X := IdsOf(cs);
    var A1 := ResetRows(A0, cs);
    var W1 := Weighted(dist, V, ClosestCalls(cs, closest));
    var W2 := Weighted(dist, V, AltitudeCalls(cs));
    ResetRowsKeeps(A0, cs);
    ClosestCallsFrom(dist, V, cs, closest);
    LinkAllKeeps(A1, W1, X);
    AltitudeCallsWithin(dist, V, cs);
    LinkAllKeeps(LinkAll(A1, W1), W2, X);
    KeepsUnion(A0, A1, LinkAll(A1, W1), X, X, X);
    KeepsUnion(A0, LinkAll(A1, W1), adj, X, X, X);
  }

  /** One pass of the third loop keeps every row's neighbours among the nodes with rows. */
  lemma CopiesWiredClosed(dist: (Location, Location) -> real, V: map<string, Node>, A0: Adj,
                          cs: seq<Node>, closest: seq<string>, adj: Adj)
    requires CopiesWired(dist, V, A0, cs, closest, adj) && Closed(A0)
    ensures Closed(adj)
  {
    var A1 := ResetRows(A0, cs);
    var W1 := Weighted(dist, V, ClosestCalls(cs, closest));
    ResetRowsClosed(A0, cs);
    LinkAllClosed(A1, W1);
    LinkAllClosed(LinkAll(A1, W1), Weighted(dist, V, AltitudeCalls(cs)));
  }

  /** With a distance that is a metric, one pass of the third loop adds no negative weight. */
  lemma CopiesWiredNonNegative(dist: (Location, Location) -> real, V: map<string, Node>, A0: Adj,
                               cs: seq<Node>, closest: seq<string>, adj: Adj)
    requires CopiesWired(dist, V, A0, cs, closest, adj) && NonNegative(A0) && IsMetric(dist)
    ensures NonNegative(adj)
  {
    var A1 := ResetRows(A0, cs);
    var W1 := Weighted(dist, V, ClosestCalls(cs, closest));
    ResetRowsNonNegative(A0, cs);
    LinkAllNonNegative(A1, W1);
    LinkAllNonNegative(LinkAll(A1, W1), Weighted(dist, V, AltitudeCalls(cs)));
  }

  /** When no copy id is already a node, one pass of the third loop keeps the adjacency symmetric. */
  lemma CopiesWiredSymmetric(dist: (Location, Location) -> real, V: map<string, Node>, A0: Adj,
                             cs: seq<Node>, closest: seq<string>, adj: Adj)
    requires CopiesWired(dist, V, A0, cs, closest, adj)
    requires Closed(A0) && IsSymmetric(A0) && IdsOf(cs) !! A0.Keys
    ensures IsSymmetric(adj)
  {
    var A1 := ResetRows(A0, cs);
    var W1 := Weighted(dist, V, ClosestCalls(cs, closest));
    ResetRowsSymmetric(A0, cs);
    LinkAllSymmetric(A1, W1);
    LinkAllSymmetric(LinkAll(A1, W1), Weighted(dist, V, AltitudeCalls(cs)));
  }

  /** With distinct copy ids, altitude call `f` joins copies `f` and `f + 1` with weight 20, and no later call joins them. */
  lemma AltitudeCallsApart(dist: (Location, Location) -> real, V: map<string, Node>, cs: seq<Node>, f: int)
    requires Placed(V, AltitudeCalls(cs)) && DistinctIds(cs) && 0 <= f < |cs| - 1
    ensures var W2 := Weighted(dist, V, AltitudeCalls(cs));
      && W2[f] == Wiring(cs[f].id, cs[f + 1].id, 20.0)
      && forall j :: f < j < |W2| ==> !Joins(W2[j], W2[f].u, W2[f].v)
  {
    var W2 := Weighted(dist, V, AltitudeCalls(cs));
    forall j | f < j < |W2| ensures !Joins(W2[j], W2[f].u, W2[f].v) {
      assert W2[j].u == cs[j].id && W2[j].v == cs[j + 1].id;
    }
  }

  /** With distinct copy ids, every copy ends up joined to the next floor's copy with weight 20. */
  lemma CopiesWiredAltitude(dist: (Location, Location) -> real, V: map<string, Node>, A0: Adj,
                            cs: seq<Node>, closest: seq<string>, adj: Adj)
    requires CopiesWired(dist, V, A0, cs, closest, adj) && DistinctIds(cs)
    ensures Altitude(adj, cs)
  {
    AltitudeLinked(dist, V, LinkAll(ResetRows(A0, cs), Weighted(dist, V, ClosestCalls(cs, closest))), cs);
  }

  /** With distinct copy ids, running the altitude calls on any adjacency map joins every copy to the next floor's copy with weight 20. */
  lemma AltitudeLinked(dist: (Location, Location) -> real, V: map<string, Node>, B: Adj, cs: seq<Node>)
    requires Placed(V, AltitudeCalls(cs)) && DistinctIds(cs) && Ends(B, Weighted(dist, V, AltitudeCalls(cs)))
    ensures Altitude(LinkAll(B, Weighted(dist, V, AltitudeCalls(cs))), cs)
  {
    var W2 := Weighted(dist, V, AltitudeCalls(cs));
    forall f, h | 0 <= f && h == f + 1 && h < |cs| ensures HasEdge(LinkAll(B, W2), cs[f].id, cs[h].id, 20.0) {
      AltitudeCallsApart(dist, V, cs, f);
      LinkAllLast(B, W2, f);
    }
  }

  /** The closest-node call of floor `f` joins no two nodes other than the copy and its closest node. */
  lemma ClosestCallsAt(dist: (Location, Location) -> real, V: map<string, Node>, cs: seq<Node>, closest: seq<string>, f: int)
    requires |closest| == |cs| && Placed(V, ClosestCalls(cs, closest)) && 0 <= f < |cs|
    ensures var W1 := Weighted(dist, V, ClosestCalls(cs, closest));
      W1[f] == Wiring(cs[f].id, closest[f], dist(V[cs[f].id].location, V[closest[f]].location))
  {
  }

  /** No later closest-node call joins copy `f` and its closest node, when that node is not a copy. */
  lemma ClosestCallsAfter(dist: (Location, Location) -> real, V: map<string, Node>, cs: seq<Node>, closest: seq<string>, f: int)
    requires |closest| == |cs| && Placed(V, ClosestCalls(cs, closest)) && 0 <= f < |cs|
    requires DistinctIds(cs) && closest[f] !in IdsOf(cs)
    ensures var W1 := Weighted(dist, V, ClosestCalls(cs, closest));
      forall j :: f < j < |W1| ==> !Joins(W1[j], W1[f].u, W1[f].v)
  {
    var W1 := Weighted(dist, V, ClosestCalls(cs, closest));
    forall j | f < j < |W1| ensures !Joins(W1[j], W1[f].u, W1[f].v) {
      assert W1[j].u == cs[j].id && cs[j].id in IdsOf(cs);
    }
  }

  /** Every closest-node call starts at a copy. */
  lemma ClosestCallsFrom(dist: (Location, Location) -> real, V: map<string, Node>, cs: seq<Node>, closest: seq<string>)
    requires |closest| == |cs| && Placed(V, ClosestCalls(cs, closest))
    ensures var W1 := Weighted(dist, V, ClosestCalls(cs, closest));
      forall j :: 0 <= j < |W1| ==> W1[j].u in IdsOf(cs)
  {
    var W1 := Weighted(dist, V, ClosestCalls(cs, closest));
    forall j | 0 <= j < |W1| ensures W1[j].u in IdsOf(cs) {
      assert W1[j].u == cs[j].id;
    }
  }

  /** Both ends of every altitude call are copies. */
  lemma AltitudeCallsWithin(dist: (Location, Location) -> real, V: map<string, Node>, cs: seq<Node>)
    requires Placed(V, AltitudeCalls(cs))
    ensures var W2 := Weighted(dist, V, AltitudeCalls(cs));
      forall j :: 0 <= j < |W2| ==> W2[j].u in IdsOf(cs) && W2[j].v in IdsOf(cs)
  {
    var W2 := Weighted(dist, V, AltitudeCalls(cs));
    forall j | 0 <= j < |W2| ensures W2[j].u in IdsOf(cs) && W2[j].v in IdsOf(cs) {
      assert W2[j].u == cs[j].id && W2[j].v == cs[j + 1].id;
    }
  }

  /**
   * With distinct copy ids, when closest node `f` is not a copy, the copy
   * on floor `f` ends up joined to it with their distance in `V`.
   */
  lemma CopyJoinedToClosest(dist: (Location, Location) -> real, V: map<string, Node>, A0: Adj,
                            cs: seq<Node>, closest: seq<string>, adj: Adj, f: int)
    requires CopiesWired(dist, V, A0, cs, closest, adj)
    requires DistinctIds(cs) && 0 <= f < |cs| && closest[f] !in IdsOf(cs)
    ensures cs[f].id in V && closest[f] in V
    ensures HasEdge(adj, cs[f].id, closest[f], dist(V[cs[f].id].location, V[closest[f]].location))
  {
    var W1 := Weighted(dist, V, ClosestCalls(cs, closest));
    ClosestCallsAt(dist, V, cs, closest, f);
    ClosestCallsAfter(dist, V, cs, closest, f);
    AltitudeCallsWithin(dist, V, cs);
    LinkedThrough(ResetRows(A0, cs), W1, Weighted(dist, V, AltitudeCalls(cs)), f, IdsOf(cs));
  }

  /**
   * A call that no later call repeats, in either orientation, leaves its
   * edge in place through a second run of calls among the nodes `X`, when
   * one of its ends is not in `X`.
   */
  lemma LinkedThrough(A1: Adj, W1: seq<Wiring>, W2: seq<Wiring>, f: int, X: set<string>)
    requires Ends(A1, W1) && Ends(LinkAll(A1, W1), W2) && 0 <= f < |W1|
    requires forall j :: f < j < |W1| ==> !Joins(W1[j], W1[f].u, W1[f].v)
    requires forall j :: 0 <= j < |W2| ==> W2[j].u in X && W2[j].v in X
    requires W1[f].v !in X
    ensures HasEdge(LinkAll(LinkAll(A1, W1), W2), W1[f].u, W1[f].v, W1[f].w)
  {
    LinkAllLast(A1, W1, f);
    LinkAllUntouched(LinkAll(A1, W1), W2, W1[f].u, W1[f].v);
    LinkAllUntouched(LinkAll(A1, W1), W2, W1[f].v, W1[f].u);
  }

  /**
   * When the copies have distinct ids that are not nodes of `V0` and every
   * closest node is one, each copy ends up joined to its closest node with
   * the distance from the copied node's location.
   */
  lemma CopiesWiredClosest(dist: (Location, Location) -> real, V0: map<string, Node>, A0: Adj,
                           cs: seq<Node>, closest: seq<string>, adj: Adj)
    requires CopiesWired(dist, Filed(V0, cs), A0, cs, closest, adj)
    requires DistinctIds(cs) && IdsOf(cs) !! V0.Keys
    requires forall f :: 0 <= f < |closest| ==> closest[f] in V0
    ensures forall f :: 0 <= f < |cs| ==> HasEdge(adj, cs[f].id, closest[f], dist(cs[f].location, V0[closest[f]].location))
  {
    forall f | 0 <= f < |cs| ensures HasEdge(adj, cs[f].id, closest[f], dist(cs[f].location, V0[closest[f]].location)) {
      assert closest[f] !in IdsOf(cs);
      CopyJoinedToClosest(dist, Filed(V0, cs), A0, cs, closest, adj, f);
      FiledLast(V0, cs, f);
      FiledOthers(V0, cs, closest[f]);
    }
  }

  /** Entries outside the rows and columns of `X` are kept, so an edge between two other nodes is too. */
  lemma HasEdgeKept(a: Adj, b: Adj, X: set<string>, u: string, v: string, w: real)
    requires HasEdge(a, u, v, w) && Keeps(a, b, X) && u !in X && v !in X
    ensures HasEdge(b, u, v, w)
  {
    assert a[u][v] == w && a[v][u] == w;
  }

  /** Altitude edges among nodes outside `X` survive changes that keep everything outside `X`. */
  lemma AltitudeKept(a: Adj, b: Adj, X: set<string>, cs: seq<Node>)
    requires Altitude(a, cs) && Keeps(a, b, X) && IdsOf(cs) !! X
    ensures Altitude(b, cs)
  {
    forall f, h | 0 <= f && h == f + 1 && h < |cs| ensures HasEdge(b, cs[f].id, cs[h].id, 20.0) {
      assert cs[f].id in IdsOf(cs) && cs[h].id in IdsOf(cs);
      HasEdgeKept(a, b, X, cs[f].id, cs[h].id, 20.0);
    }
  }

  /** Once a pass of the third loop fails, the first error stays that one. */
  lemma {:induction false} CopiesErrorSticks(nodes: seq<Node>, numFloors: int, i: int, n: int)
    requires 0 <= i <= n <= |nodes| && CopiesError(nodes, numFloors, i).Some?
    ensures CopiesError(nodes, numFloors, n) == CopiesError(nodes, numFloors, i)
  {
    if i < n {
      CopiesErrorSticks(nodes, numFloors, i, n - 1);
    }
  }

  /** No error among the first `n` edges means every one of them passed its checks. */
  lemma {:induction false} EdgeErrorNone(adj: Adj, edges: seq<(string, string)>, n: int, j: int)
    requires 0 <= j < n <= |edges| && EdgeError(adj, edges, n) == None
    ensures BadEdge(adj, edges, j) == None
  {
    if j < n - 1 {
      EdgeErrorNone(adj, edges, n - 1, j);
    }
  }

  /**
   * After the second loop, each edge joins its two ends, both ways, with
   * their distance: no later edge repeats it, in either orientation.
   */
  lemma EdgeLinked(dist: (Location, Location) -> real, V: map<string, Node>, A1: Adj, edges: seq<(string, string)>, i: int)
    requires 0 <= i < |edges| && EdgeError(A1, edges, |edges|) == None
    requires forall j :: 0 <= j < |edges| ==> edges[j].0 in V && edges[j].1 in V
    requires Ends(A1, Wired(dist, V, edges))
    ensures HasEdge(LinkAll(A1, Wired(dist, V, edges)), edges[i].0, edges[i].1,
                    dist(V[edges[i].0].location, V[edges[i].1].location))
  {
    var W := Wired(dist, V, edges);
    forall j | i < j < |W| ensures !Joins(W[j], W[i].u, W[i].v) {
      EdgeErrorNone(A1, edges, |edges|, j);
    }
    LinkAllLast(A1, W, i);
  }

  /**
   * What holds after the first `k` passes of the third loop, from the node
   * table `VB` of the first loop and the adjacency map `A2` of the second:
   * no pass has raised; the nodes are the building nodes and the copies so
   * far; floor 0 has a non-empty index set once a building node or a copy
   * lies there; only the copies' rows and columns differ from `A2`; weights
   * stay non-negative with a metric distance; and with fresh copy ids the
   * adjacency stays symmetric and every copied node has its altitude edges.
   */
  ghost predicate CopiedUpTo(g: Graph, nodes: seq<Node>, numFloors: int, k: int, VB: map<string, Node>, A2: Adj)
    requires 0 <= k <= |nodes|
    reads g
  {
    && g.Valid()
    && CopiedNodes(g.vertices, g.floors, nodes, numFloors, k, VB)
    && CopiedLinks(g.dist, g.adj, nodes, numFloors, k, A2)
  }

  /** The node table and floor indexes after the first `k` passes of the third loop. */
  ghost predicate CopiedNodes(V: map<string, Node>, floors: map<Option<int>, set<string>>,
                              nodes: seq<Node>, numFloors: int, k: int, VB: map<string, Node>)
    requires 0 <= k <= |nodes|
  {
    && CopiesError(nodes, numFloors, k) == None
    && Copyable(nodes, numFloors, k)
    && V == Filed(VB, AllCopies(nodes, numFloors, k))
    && (Some(0) in floors <==> FloorZeroBefore(nodes, |nodes|) || (numFloors > 0 && CopiedBefore(nodes, k)))
    && FloorZeroFilled(floors)
  }

  /** The adjacency map after the first `k` passes of the third loop. */
  ghost predicate CopiedLinks(dist: (Location, Location) -> real, adj: Adj, nodes: seq<Node>, numFloors: int, k: int, A2: Adj)
    requires 0 <= k <= |nodes| && Copyable(nodes, numFloors, k)
  {
    && Keeps(A2, adj, IdsOf(AllCopies(nodes, numFloors, k)))
    && (IsMetric(dist) ==> NonNegative(adj))
    && (FreshCopies(nodes, numFloors) ==> IsSymmetric(adj))
    && (FreshCopies(nodes, numFloors) ==>
          forall j :: 0 <= j < k && nodes[j].nodeType != Building ==> Altitude(adj, Copies(nodes[j], numFloors)))
  }

  /** The floor loop of one pass raises what the third loop's model says it raises. */
  lemma PlanErrorIsCopyError(nodes: seq<Node>, numFloors: int, k: int, floors: map<Option<int>, set<string>>)
    requires 0 <= k < |nodes| && nodes[k].nodeType != Building
    requires Some(0) in floors <==> FloorZeroBefore(nodes, |nodes|) || (numFloors > 0 && CopiedBefore(nodes, k))
    requires FloorZeroFilled(floors)
    ensures PlanError(nodes[k].id, numFloors, floors) == CopyError(nodes, numFloors, k)
  {
    if Some(0) in floors {
      var w :| w in floors[Some(0)];
    }
  }

  /**
   * One pass of the third loop of `create_graph` over node `k`: nothing
   * for a building node, else `AddFloorCopies`; it raises what
   * `CopyError` says and otherwise keeps `CopiedUpTo` one node further.
   */
  method CopyOnFloors(g: Graph, nodes: seq<Node>, numFloors: int, k: int, ghost VB: map<string, Node>, ghost A2: Adj)
    returns (err: Option<GraphError>)
    requires 0 <= k < |nodes| && VB.Keys == IdsOf(Buildings(nodes))
    requires CopiedUpTo(g, nodes, numFloors, k, VB, A2)
    modifies g
    ensures err == CopyError(nodes, numFloors, k)
    ensures err.Some? ==> err == CopiesError(nodes, numFloors, |nodes|)
    ensures err.None? ==> CopiedUpTo(g, nodes, numFloors, k + 1, VB, A2)
  {
    if nodes[k].nodeType == Building {
      SkipBuilding(g, nodes, numFloors, k, VB, A2);
      return None;
    }
    err := CopyStairs(g, nodes, numFloors, k, VB, A2);
    if err.Some? {
      FirstCopyError(nodes, numFloors, k);
    }
  }

  /** The first pass that raises decides what the whole third loop raises. */
  lemma FirstCopyError(nodes: seq<Node>, numFloors: int, k: int)
    requires 0 <= k < |nodes| && CopiesError(nodes, numFloors, k) == None && CopyError(nodes, numFloors, k).Some?
    ensures CopiesError(nodes, numFloors, |nodes|) == CopyError(nodes, numFloors, k)
  {
    assert CopiesError(nodes, numFloors, k + 1) == CopyError(nodes, numFloors, k);
    CopiesErrorSticks(nodes, numFloors, k + 1, |nodes|);
  }

  /** The third loop skips a building node. */
  lemma SkipBuilding(g: Graph, nodes: seq<Node>, numFloors: int, k: int, VB: map<string, Node>, A2: Adj)
    requires 0 <= k < |nodes| && nodes[k].nodeType == Building
    requires CopiedUpTo(g, nodes, numFloors, k, VB, A2)
    ensures CopyError(nodes, numFloors, k) == None
    ensures CopiedUpTo(g, nodes, numFloors, k + 1, VB, A2)
  {
    SkipNodes(g.vertices, g.floors, nodes, numFloors, k, VB);
    SkipLinks(g.dist, g.adj, nodes, numFloors, k, A2);
  }

  lemma SkipNodes(V: map<string, Node>, floors: map<Option<int>, set<string>>,
                  nodes: seq<Node>, numFloors: int, k: int, VB: map<string, Node>)
    requires 0 <= k < |nodes| && nodes[k].nodeType == Building
    requires CopiedNodes(V, floors, nodes, numFloors, k, VB)
    ensures CopyError(nodes, numFloors, k) == None
    ensures CopiedNodes(V, floors, nodes, numFloors, k + 1, VB)
  {
    assert CopiesError(nodes, numFloors, k + 1) == None;
    assert Copyable(nodes, numFloors, k + 1);
    assert AllCopies(nodes, numFloors, k + 1) == AllCopies(nodes, numFloors, k) + [];
    assert AllCopies(nodes, numFloors, k + 1) == AllCopies(nodes, numFloors, k);
    assert CopiedBefore(nodes, k + 1) == CopiedBefore(nodes, k);
  }

  lemma SkipLinks(dist: (Location, Location) -> real, adj: Adj, nodes: seq<Node>, numFloors: int, k: int, A2: Adj)
    requires 0 <= k < |nodes| && nodes[k].nodeType == Building && Copyable(nodes, numFloors, k + 1)
    requires CopiedLinks(dist, adj, nodes, numFloors, k, A2)
    ensures CopiedLinks(dist, adj, nodes, numFloors, k + 1, A2)
  {
    assert AllCopies(nodes, numFloors, k + 1) == AllCopies(nodes, numFloors, k) + [];
    assert AllCopies(nodes, numFloors, k + 1) == AllCopies(nodes, numFloors, k);
    if FreshCopies(nodes, numFloors) {
      forall j | 0 <= j < k + 1 && nodes[j].nodeType != Building ensures Altitude(adj, Copies(nodes[j], numFloors)) {
        assert j != k;
      }
    }
  }

  /** `CopyOnFloors` over a stair or elevator node. */
  method CopyStairs(g: Graph, nodes: seq<Node>, numFloors: int, k: int, ghost VB: map<string, Node>, ghost A2: Adj)
    returns (err: Option<GraphError>)
    requires 0 <= k < |nodes| && nodes[k].nodeType != Building && VB.Keys == IdsOf(Buildings(nodes))
    requires CopiedUpTo(g, nodes, numFloors, k, VB, A2)
    modifies g
    ensures err == CopyError(nodes, numFloors, k)
    ensures err.None? ==> CopiedUpTo(g, nodes, numFloors, k + 1, VB, A2)
  {
    var node := nodes[k];
    ghost var Vold, Aold, Fold := g.vertices, g.adj, g.floors;
    PlanErrorIsCopyError(nodes, numFloors, k, g.floors);
    var r, closest := AddFloorCopies(g, node, numFloors);
    if r.Err? {
      return Some(r.error);
    }
    CopiedStep(nodes, numFloors, k, VB, Vold, Fold, g.vertices, g.floors);
    CopiedAdj(g.dist, nodes, numFloors, k, VB, A2, Vold, Aold, g.vertices, g.adj, closest);
    err := None;
  }

  /** `CopiedNodes` one node further after a pass over a stair or elevator node that did not raise. */
  lemma CopiedStep(nodes: seq<Node>, numFloors: int, k: int, VB: map<string, Node>,
                   Vold: map<string, Node>, Fold: map<Option<int>, set<string>>,
                   Vnew: map<string, Node>, Fnew: map<Option<int>, set<string>>)
    requires 0 <= k < |nodes| && nodes[k].nodeType != Building
    requires CopiedNodes(Vold, Fold, nodes, numFloors, k, VB)
    requires CopyError(nodes, numFloors, k) == None
    requires numFloors > 0 ==> Some(0) in Fnew && FloorZeroFilled(Fnew)
    requires numFloors <= 0 ==> Fnew == Fold
    requires Vnew == Filed(Vold, Copies(nodes[k], numFloors))
    ensures CopiedNodes(Vnew, Fnew, nodes, numFloors, k + 1, VB)
  {
    StairsPass(nodes, numFloors, k);
    if numFloors > 0 {
      assert Some(0) in Fnew && FloorZeroFilled(Fnew);
    } else {
      assert Fnew == Fold;
    }
    FiledAppend(VB, AllCopies(nodes, numFloors, k), Copies(nodes[k], numFloors));
  }

  /** A pass over a stair or elevator node that does not raise appends its copies and raises nothing so far. */
  lemma StairsPass(nodes: seq<Node>, numFloors: int, k: int)
    requires 0 <= k < |nodes| && nodes[k].nodeType != Building && Copyable(nodes, numFloors, k)
    requires CopiesError(nodes, numFloors, k) == None && CopyError(nodes, numFloors, k) == None
    ensures CopiesError(nodes, numFloors, k + 1) == None && CopiedBefore(nodes, k + 1)
    ensures Copyable(nodes, numFloors, k + 1)
    ensures AllCopies(nodes, numFloors, k + 1) == AllCopies(nodes, numFloors, k) + Copies(nodes[k], numFloors)
  {
    assert Copyable(nodes, numFloors, k + 1);
  }

  /** `CopiedLinks` one node further after a pass over a stair or elevator node that did not raise. */
  lemma CopiedAdj(dist: (Location, Location) -> real, nodes: seq<Node>, numFloors: int, k: int,
                  VB: map<string, Node>, A2: Adj, Vold: map<string, Node>, Aold: Adj,
                  Vnew: map<string, Node>, Anew: Adj, closest: seq<string>)
    requires 0 <= k < |nodes| && nodes[k].nodeType != Building && VB.Keys == IdsOf(Buildings(nodes))
    requires Copyable(nodes, numFloors, k + 1)
    requires Vold == Filed(VB, AllCopies(nodes, numFloors, k)) && Closed(Aold) && Aold.Keys == Vold.Keys
    requires CopiedLinks(dist, Aold, nodes, numFloors, k, A2)
    requires CopiesWired(dist, Vnew, Aold, Copies(nodes[k], numFloors), closest, Anew)
    ensures CopiedLinks(dist, Anew, nodes, numFloors, k + 1, A2)
  {
    var cs := Copies(nodes[k], numFloors);
    var Xk := IdsOf(AllCopies(nodes, numFloors, k));
    assert AllCopies(nodes, numFloors, k + 1) == AllCopies(nodes, numFloors, k) + cs;
    IdsOfAppend(AllCopies(nodes, numFloors, k), cs);
    CopiesWiredKeeps(dist, Vnew, Aold, cs, closest, Anew);
    KeepsUnion(A2, Aold, Anew, Xk, IdsOf(cs), Xk + IdsOf(cs));
    if IsMetric(dist) {
      CopiesWiredNonNegative(dist, Vnew, Aold, cs, closest, Anew);
    }
    if FreshCopies(nodes, numFloors) {
      FiledKeys(VB, AllCopies(nodes, numFloors, k));
      FreshAt(nodes, numFloors, |nodes|, k);
      assert IdsOf(cs) !! Aold.Keys;
      CopiedStepFresh(dist, nodes, numFloors, k, Aold, Vnew, Anew, closest);
    }
  }

  /** With fresh copy ids, one pass over a stair or elevator node keeps symmetry and every altitude edge so far. */
  lemma CopiedStepFresh(dist: (Location, Location) -> real, nodes: seq<Node>, numFloors: int, k: int,
                        Aold: Adj, Vnew: map<string, Node>, Anew: Adj, closest: seq<string>)
    requires 0 <= k < |nodes| && nodes[k].nodeType != Building && Copyable(nodes, numFloors, |nodes|)
    requires IdsOf(Copies(nodes[k], numFloors)) !! Aold.Keys
    requires Aold.Keys == IdsOf(Buildings(nodes)) + IdsOf(AllCopies(nodes, numFloors, k))
    requires Closed(Aold) && IsSymmetric(Aold)
    requires forall j :: 0 <= j < k && nodes[j].nodeType != Building ==> Altitude(Aold, Copies(nodes[j], numFloors))
    requires CopiesWired(dist, Vnew, Aold, Copies(nodes[k], numFloors), closest, Anew)
    ensures IsSymmetric(Anew)
    ensures forall j :: 0 <= j < k + 1 && nodes[j].nodeType != Building ==> Altitude(Anew, Copies(nodes[j], numFloors))
  {
    var cs := Copies(nodes[k], numFloors);
    CopiesWiredSymmetric(dist, Vnew, Aold, cs, closest, Anew);
    CopiesDistinctIds(nodes[k], numFloors);
    CopiesWiredAltitude(dist, Vnew, Aold, cs, closest, Anew);
    CopiesWiredKeeps(dist, Vnew, Aold, cs, closest, Anew);
    AltitudesKept(nodes, numFloors, k, Aold, Anew, IdsOf(cs));
    forall j | 0 <= j < k + 1 && nodes[j].nodeType != Building ensures Altitude(Anew, Copies(nodes[j], numFloors)) {
      if j == k {
        assert Altitude(Anew, cs);
      }
    }
  }

  /** The altitude edges of earlier nodes survive a pass that rewires only fresh ids. */
  lemma AltitudesKept(nodes: seq<Node>, numFloors: int, k: int, Aold: Adj, Anew: Adj, X: set<string>)
    requires 0 <= k < |nodes| && Copyable(nodes, numFloors, |nodes|)
    requires X !! Aold.Keys && IdsOf(AllCopies(nodes, numFloors, k)) <= Aold.Keys
    requires forall j :: 0 <= j < k && nodes[j].nodeType != Building ==> Altitude(Aold, Copies(nodes[j], numFloors))
    requires Keeps(Aold, Anew, X)
    ensures forall j :: 0 <= j < k && nodes[j].nodeType != Building ==> Altitude(Anew, Copies(nodes[j], numFloors))
  {
    forall j | 0 <= j < k && nodes[j].nodeType != Building ensures Altitude(Anew, Copies(nodes[j], numFloors)) {
      CopiesInAll(nodes, numFloors, j, k);
      AltitudeKept(Aold, Anew, X, Copies(nodes[j], numFloors));
    }
  }

  /** `add_node` on each node of an empty graph leaves an empty row per id. */
  lemma ResetRowsEmpty(ns: seq<Node>)
    ensures ResetRows(map[], ns) == EmptyRows(IdsOf(ns))
  {
  }

  /** After the second loop: every input edge joins its two ends both ways with their distance, and the map stays symmetric. */
  lemma EdgesLinked(dist: (Location, Location) -> real, VB: map<string, Node>, edges: seq<(string, string)>)
    requires EdgeError(EmptyRows(VB.Keys), edges, |edges|) == None
    requires forall j :: 0 <= j < |edges| ==> edges[j].0 in VB && edges[j].1 in VB
    requires Ends(EmptyRows(VB.Keys), Wired(dist, VB, edges))
    ensures IsSymmetric(LinkAll(EmptyRows(VB.Keys), Wired(dist, VB, edges)))
    ensures IsMetric(dist) ==> NonNegative(LinkAll(EmptyRows(VB.Keys), Wired(dist, VB, edges)))
    ensures forall i :: 0 <= i < |edges| ==>
      HasEdge(LinkAll(EmptyRows(VB.Keys), Wired(dist, VB, edges)), edges[i].0, edges[i].1,
              dist(VB[edges[i].0].location, VB[edges[i].1].location))
  {
    var A1 := EmptyRows(VB.Keys);
    var W := Wired(dist, VB, edges);
    LinkAllSymmetric(A1, W);
    if IsMetric(dist) {
      LinkAllNonNegative(A1, W);
    }
    forall i | 0 <= i < |edges|
      ensures HasEdge(LinkAll(A1, W), edges[i].0, edges[i].1, dist(VB[edges[i].0].location, VB[edges[i].1].location))
    {
      EdgeLinked(dist, VB, A1, edges, i);
    }
  }

  /** Before the third loop, with the node table and adjacency map of the first two. */
  lemma CopiedStart(g: Graph, nodes: seq<Node>, numFloors: int, VB: map<string, Node>, A2: Adj)
    requires g.Valid() && g.vertices == VB && g.adj == A2
    requires Some(0) in g.floors <==> FloorZeroBefore(nodes, |nodes|)
    requires FloorZeroFilled(g.floors)
    requires IsMetric(g.dist) ==> NonNegative(A2)
    requires IsSymmetric(A2)
    ensures CopiedUpTo(g, nodes, numFloors, 0, VB, A2)
  {
    assert Filed(VB, AllCopies(nodes, numFloors, 0)) == VB;
  }

  /** Each edge between two nodes of `V` whose ids are outside `X` joins them both ways with their distance. */
  ghost predicate EdgesKept(dist: (Location, Location) -> real, V: map<string, Node>, adj: Adj,
                            edges: seq<(string, string)>, X: set<string>) {
    forall i :: 0 <= i < |edges| && edges[i].0 in V && edges[i].1 in V && edges[i].0 !in X && edges[i].1 !in X ==>
      HasEdge(adj, edges[i].0, edges[i].1, dist(V[edges[i].0].location, V[edges[i].1].location))
  }

  /** What `CopiedUpTo` after the whole third loop says about the graph `create_graph` returns. */
  lemma CreateDone(g: Graph, nodes: seq<Node>, edges: seq<(string, string)>, numFloors: int, VB: map<string, Node>, A2: Adj)
    requires CopiedUpTo(g, nodes, numFloors, |nodes|, VB, A2)
    requires VB == Filed(map[], Buildings(nodes))
    requires forall i :: 0 <= i < |edges| ==> edges[i].0 in VB && edges[i].1 in VB
    requires forall i :: 0 <= i < |edges| ==>
      HasEdge(A2, edges[i].0, edges[i].1, g.dist(VB[edges[i].0].location, VB[edges[i].1].location))
    ensures Copyable(nodes, numFloors, |nodes|)
    ensures g.vertices == Filed(map[], Buildings(nodes) + AllCopies(nodes, numFloors, |nodes|))
    ensures forall i :: 0 <= i < |edges| ==> edges[i].0 in g.vertices && edges[i].1 in g.vertices
    ensures EdgesKept(g.dist, g.vertices, g.adj, edges, IdsOf(AllCopies(nodes, numFloors, |nodes|)))
    ensures IsMetric(g.dist) ==> NonNegative(g.adj)
    ensures FreshCopies(nodes, numFloors) ==> g.Symmetric()
    ensures FreshCopies(nodes, numFloors) ==>
      forall j :: 0 <= j < |nodes| && nodes[j].nodeType != Building ==> Altitude(g.adj, Copies(nodes[j], numFloors))
  {
    var X := IdsOf(AllCopies(nodes, numFloors, |nodes|));
    FiledAppend(map[], Buildings(nodes), AllCopies(nodes, numFloors, |nodes|));
    FiledKeys(VB, AllCopies(nodes, numFloors, |nodes|));
    forall i | 0 <= i < |edges| && edges[i].0 !in X && edges[i].1 !in X
      ensures HasEdge(g.adj, edges[i].0, edges[i].1, g.dist(g.vertices[edges[i].0].location, g.vertices[edges[i].1].location))
    {
      FiledOthers(VB, AllCopies(nodes, numFloors, |nodes|), edges[i].0);
      FiledOthers(VB, AllCopies(nodes, numFloors, |nodes|), edges[i].1);
      HasEdgeKept(A2, g.adj, X, edges[i].0, edges[i].1, g.dist(VB[edges[i].0].location, VB[edges[i].1].location));
    }
  }

  /**
   * `create_graph`: the building nodes, then the edges, then for each
   * stair or elevator node a copy on every floor joined to the closest
   * floor-0 node and to the copy one floor up. It raises the first error
   * `BuildError` names; otherwise the graph holds exactly the building
   * nodes and the copies, each input edge between two ids no copy reuses
   * is there with its distance, weights are non-negative for a metric
   * distance, and with fresh copy ids the map is symmetric and every
   * copied node has its altitude edges.
   */
  method CreateGraph(dist: (Location, Location) -> real, nodes: seq<Node>, edges: seq<(string, string)>, numFloors: int)
    returns (r: Result<Graph, GraphError>)
    ensures r.Err? <==> BuildError(nodes, edges, numFloors).Some?
    ensures r.Err? ==> BuildError(nodes, edges, numFloors) == Some(r.error)
    ensures r.Ok? ==> fresh(r.value) && r.value.dist == dist && r.value.Valid()
    ensures r.Ok? ==> Copyable(nodes, numFloors, |nodes|)
    ensures r.Ok? ==> r.value.vertices == Filed(map[], Buildings(nodes) + AllCopies(nodes, numFloors, |nodes|))
    ensures r.Ok? ==> forall i :: 0 <= i < |edges| ==> edges[i].0 in r.value.vertices && edges[i].1 in r.value.vertices
    ensures r.Ok? ==> EdgesKept(dist, r.value.vertices, r.value.adj, edges, IdsOf(AllCopies(nodes, numFloors, |nodes|)))
    ensures r.Ok? && IsMetric(dist) ==> NonNegative(r.value.adj)
    ensures r.Ok? && FreshCopies(nodes, numFloors) ==> r.value.Symmetric()
    ensures r.Ok? && FreshCopies(nodes, numFloors) ==>
      forall j :: 0 <= j < |nodes| && nodes[j].nodeType != Building ==> Altitude(r.value.adj, Copies(nodes[j], numFloors))
  {
    var g := new Graph(dist);
    AddBuildings(g, nodes);
    ghost var VB := g.vertices;
    FiledKeys(map[], Buildings(nodes));
    ResetRowsEmpty(Buildings(nodes));
    var e := AddEdges(g, edges);
    if e.Err? {
      return Err(e.error);
    }
    assert edges[..|edges|] == edges;
    EdgesLinked(dist, VB, edges);
    ghost var A2 := g.adj;
    CopiedStart(g, nodes, numFloors, VB, A2);
    var err := CopyAllOnFloors(g, nodes, numFloors, VB, A2);
    if err.Some? {
      return Err(err.value);
    }
    CreateDone(g, nodes, edges, numFloors, VB, A2);
    r := Ok(g);
  }

  /** The third loop of `create_graph`: it raises the first error `CopiesError` names, or keeps `CopiedUpTo` to the end. */
  method CopyAllOnFloors(g: Graph, nodes: seq<Node>, numFloors: int, ghost VB: map<string, Node>, ghost A2: Adj)
    returns (err: Option<GraphError>)
    requires VB.Keys == IdsOf(Buildings(nodes)) && CopiedUpTo(g, nodes, numFloors, 0, VB, A2)
    modifies g
    ensures err == CopiesError(nodes, numFloors, |nodes|)
    ensures err.None? ==> CopiedUpTo(g, nodes, numFloors, |nodes|, VB, A2)
  {
    var k := 0;
    while k < |nodes|
      invariant 0 <= k <= |nodes| && CopiedUpTo(g, nodes, numFloors, k, VB, A2)
    {
      err := CopyOnFloors(g, nodes, numFloors, k, VB, A2);
      if err.Some? {
        return;
      }
      k := k + 1;
    }
    err := None;
  }
}
