/**
 * The two pieces of pure logic inside the CSV readers of
 * server_src/graph.py: how `parse_nodes` builds a node id from a CSV name,
 * the floor and the node type, how `create_graph` rewrites the floor
 * segment of a stair or elevator id, and how `parse_edges` turns a polyline
 * of locations into consecutive pairs of node ids.
 */
module NodeIds {
  import opened Wrappers
  import opened Text
  import opened Geometry
  import opened NavGraph

  /** `str(floor)` for an optional floor: Python prints `None` for a missing one. */
  function FloorText(f: Option<int>): (r: string)
    ensures |r| >= 1 && '.' !in r
  {
    if f.None? then "None" else IntTextChars(f.value); IntText(f.value)
  }

  function ParseFloor(s: string): Option<Option<int>> {
    if s == "None" then Some(None)
    else match ParseInt(s)
      case Some(i) => Some(Some(i))
      case None => None
  }

  lemma FloorTextRoundTrip(f: Option<int>)
    ensures ParseFloor(FloorText(f)) == Some(f)
  {
    if f.Some? {
      IntTextRoundTrip(f.value);
      assert ParseInt("None") == None;
    }
  }

  /**
   * The id `parse_nodes` gives a CSV name: the name's '.'-separated
   * segments with the floor inserted after the first one and the type's
   * letter appended, joined by '.'.
   */
  function NodeId(name: string, floor: Option<int>, t: NodeType): string {
    Join(IdSegments(name, floor, t), '.')
  }

  function IdSegments(name: string, floor: Option<int>, t: NodeType): (r: seq<string>)
    ensures |r| >= 3 && forall k :: 0 <= k < |r| ==> '.' !in r[k]
  {
    var segs := Split(name, '.');
    [segs[0], FloorText(floor)] + segs[1..] + [[TypeCode(t)]]
  }

  /** Reads back the name, floor and type of an id, where it has that form. */
  function ParseNodeId(id: string): Option<(string, Option<int>, NodeType)> {
    var parts := Split(id, '.');
    if |parts| < 3 || |parts[|parts| - 1]| != 1 then None
    else match (ParseFloor(parts[1]), TypeOfCode(parts[|parts| - 1][0]))
      case (Some(f), Some(t)) => Some((Join([parts[0]] + parts[2..|parts| - 1], '.'), f, t))
      case _ => None
  }

  lemma IdSegmentsOfId(name: string, floor: Option<int>, t: NodeType)
    ensures Split(NodeId(name, floor, t), '.') == IdSegments(name, floor, t)
  {
    SplitJoin(IdSegments(name, floor, t), '.');
  }

  /** The name, the floor and the type are all recovered from the id. */
  lemma NodeIdRoundTrip(name: string, floor: Option<int>, t: NodeType)
    ensures ParseNodeId(NodeId(name, floor, t)) == Some((name, floor, t))
  {
    IdSegmentsOfId(name, floor, t);
    var parts := IdSegments(name, floor, t);
    var segs := Split(name, '.');
    FloorTextRoundTrip(floor);
    TypeCodeRoundTrip(t);
    assert [parts[0]] + parts[2..|parts| - 1] == segs;
    JoinSplit(name, '.');
  }

  /** Different names, floors or types give different ids. */
  lemma NodeIdInjective(n1: string, f1: Option<int>, t1: NodeType, n2: string, f2: Option<int>, t2: NodeType)
    requires NodeId(n1, f1, t1) == NodeId(n2, f2, t2)
    ensures n1 == n2 && f1 == f2 && t1 == t2
  {
    NodeIdRoundTrip(n1, f1, t1);
    NodeIdRoundTrip(n2, f2, t2);
  }

  /**
   * The id of the copy of a stair or elevator node on `floor`: segment 1
   * of the id replaced by the floor number. An id without a '.' has no
   * segment 1 and raises.
   */
  function CopyId(id: string, floor: int): (r: Result<string, GraphError>)
    ensures r.Err? <==> '.' !in id
    ensures r.Err? ==> r.error == IndexError
  {
    WithSegment1(id, IntText(floor))
  }

  /** `segs[1] = text` on the '.'-separated segments of `id`, joined again by '.'. */
  function WithSegment1(id: string, text: string): (r: Result<string, GraphError>)
    ensures r.Err? <==> '.' !in id
    ensures r.Err? ==> r.error == IndexError
  {
    var segs := Split(id, '.');
    SplitHasSep(id, '.');
    if |segs| < 2 then Err(IndexError) else Ok(Join(segs[1 := text], '.'))
  }

  /** `s.split(sep)` has more than one piece exactly when `sep` occurs in `s`. */
  lemma {:induction false} SplitHasSep(s: string, sep: char)
    ensures |Split(s, sep)| >= 2 <==> sep in s
  {
    if |s| > 0 {
      SplitHasSep(s[1..], sep);
      assert s == [s[0]] + s[1..];
    }
  }

  /** Replacing segment 1 of joined segments replaces that segment in the list. */
  lemma WithSegment1OfJoin(parts: seq<string>, text: string)
    requires |parts| >= 2 && forall k :: 0 <= k < |parts| ==> '.' !in parts[k]
    ensures WithSegment1(Join(parts, '.'), text) == Ok(Join(parts[1 := text], '.'))
  {
    SplitJoin(parts, '.');
  }

  /** Re-flooring an id built by `parse_nodes` gives the id of the same name on the new floor. */
  lemma CopyOfNodeId(name: string, floor: Option<int>, t: NodeType, g: int)
    ensures CopyId(NodeId(name, floor, t), g) == Ok(NodeId(name, Some(g), t))
  {
    var parts := IdSegments(name, floor, t);
    WithSegment1OfJoin(parts, IntText(g));
    assert parts[1 := IntText(g)] == IdSegments(name, Some(g), t);
  }

  /** The copies of one node on different floors have different ids. */
  lemma CopyIdsDistinct(id: string, a: int, b: int)
    requires '.' in id && a != b
    ensures CopyId(id, a).value != CopyId(id, b).value
  {
    var segs := Split(id, '.');
    SplitHasSep(id, '.');
    var sa, sb := segs[1 := IntText(a)], segs[1 := IntText(b)];
    IntTextChars(a);
    IntTextChars(b);
    SplitJoin(sa, '.');
    SplitJoin(sb, '.');
    if Join(sa, '.') == Join(sb, '.') {
      assert sa[1] == sb[1];
      IntTextInjective(a, b);
    }
  }

  /**
   * `parse_edges`'s table from locations to node ids: each location is
   * mapped to the id of the last node standing there.
   */
  method LocationIndex(nodes: seq<Node>) returns (m: map<Location, string>)
    ensures forall loc :: loc in m <==> exists i :: 0 <= i < |nodes| && nodes[i].location == loc
    ensures forall i :: 0 <= i < |nodes| && (forall j :: i < j < |nodes| ==> nodes[j].location != nodes[i].location) ==>
      m[nodes[i].location] == nodes[i].id
  {
    m := map[];
    var k := 0;
    while k < |nodes|
      invariant 0 <= k <= |nodes|
      invariant forall loc :: loc in m <==> exists i :: 0 <= i < k && nodes[i].location == loc
      invariant forall i :: 0 <= i < k && (forall j :: i < j < k ==> nodes[j].location != nodes[i].location) ==>
        m[nodes[i].location] == nodes[i].id
    {
      m := m[nodes[k].location := nodes[k].id];
      k := k + 1;
    }
  }

  /**
   * The pairs `parse_edges` reads off one polyline: the ids at each two
   * consecutive points. A point with no node raises, at the first such
   * point the loop looks up. A polyline of one point gives no pair and
   * looks nothing up.
   */
  method PolylineEdges(index: map<Location, string>, points: seq<Location>)
    returns (r: Result<seq<(string, string)>, GraphError>)
    ensures r.Ok? <==> |points| < 2 || forall k :: 0 <= k < |points| ==> points[k] in index
    ensures r.Ok? ==> |r.value| == (if |points| < 2 then 0 else |points| - 1)
    ensures r.Ok? ==> forall k {:trigger r.value[k]} :: 0 <= k < |r.value| ==>
      points[k] in index && points[k + 1] in index && r.value[k] == (index[points[k]], index[points[k + 1]])
    ensures r.Err? ==>
      exists j :: && 0 <= j < |points| && points[j] !in index && r.error == UnknownLocation(points[j])
                  && forall k :: 0 <= k < j ==> points[k] in index
  {
    var edges: seq<(string, string)> := [];
    var i := 0;
    while i < |points| - 1
      invariant 0 <= i <= |points| && (|points| >= 1 ==> i <= |points| - 1)
      invariant |edges| == i
      invariant forall k :: 0 <= k < i ==> points[k] in index
      invariant i > 0 ==> points[i] in index
      invariant forall k {:trigger edges[k]} :: 0 <= k < i ==>
        points[k + 1] in index && edges[k] == (index[points[k]], index[points[k + 1]])
    {
      if points[i] !in index {
        return Err(UnknownLocation(points[i]));
      }
      if points[i + 1] !in index {
        return Err(UnknownLocation(points[i + 1]));
      }
      edges := edges + [(index[points[i]], index[points[i + 1]])];
      i := i + 1;
    }
    r := Ok(edges);
  }
}
