/**
 * Building footprints and the crossing-number point-in-polygon test of
 * `Polygon` in server_src/graph.py, with the lookup of the building that
 * contains a point. Coordinates are exact reals.
 */
module Geometry {
  import opened Wrappers

  datatype Location = Location(lat: real, lon: real)

  /** A footprint: its vertices in order; the last one joins back to the first. */
  type Polygon = seq<Location>

  /** Python raises IndexError when an empty polygon is asked for `vertices[0]`. */
  datatype GeometryError = EmptyPolygon

  function Min(x: real, y: real): real { if x <= y then x else y }

  function Max(x: real, y: real): real { if x <= y then y else x }

  /** The edge from `a` to `b` crosses the horizontal line through `p` strictly. */
  predicate Straddles(a: Location, b: Location, p: Location) {
    Min(a.lon, b.lon) < p.lon < Max(a.lon, b.lon)
  }

  /** Python list indexing, where -1 is the last vertex. */
  function Vertex(poly: Polygon, k: int): Location
    requires -|poly| <= k < |poly|
  {
    if k < 0 then poly[|poly| + k] else poly[k]
  }

  /** The candidates among the open edges (i, i+1) with i < n, in order. */
  function OpenCandidates(poly: Polygon, p: Location, n: nat): seq<(int, int)>
    requires n < |poly|
  {
    if n == 0 then []
    else OpenCandidates(poly, p, n - 1)
         + (if Straddles(poly[n - 1], poly[n], p) then [(n - 1, n)] else [])
  }

  /** The edges the crossing test examines: straddling open edges, then the closing edge (0, -1). */
  function Candidates(poly: Polygon, p: Location): seq<(int, int)>
    requires |poly| >= 1
  {
    OpenCandidates(poly, p, |poly| - 1)
    + (if Straddles(poly[0], poly[|poly| - 1], p) then [(0, -1)] else [])
  }

  lemma {:induction false} OpenCandidatesExactly(poly: Polygon, p: Location, n: nat)
    requires n < |poly|
    ensures forall e :: e in OpenCandidates(poly, p, n) <==>
      (0 <= e.0 < n && e.1 == e.0 + 1 && Straddles(poly[e.0], poly[e.0 + 1], p))
  {
    if n > 0 {
      OpenCandidatesExactly(poly, p, n - 1);
    }
  }

  /**
   * An edge is examined exactly when it straddles the point's longitude:
   * (i, i+1) for the open edges, (0, -1) for the closing one. For every
   * examined edge the two endpoints have different longitudes, so the
   * intercept's divisor is never zero.
   */
  lemma CandidatesExactly(poly: Polygon, p: Location)
    requires |poly| >= 1
    ensures forall i :: (i, i + 1) in Candidates(poly, p) <==>
      (0 <= i < |poly| - 1 && Straddles(poly[i], poly[i + 1], p))
    ensures (0, -1) in Candidates(poly, p) <==> Straddles(poly[0], poly[|poly| - 1], p)
    ensures forall e :: e in Candidates(poly, p) ==>
      -|poly| <= e.0 < |poly| && -|poly| <= e.1 < |poly|
      && Straddles(Vertex(poly, e.0), Vertex(poly, e.1), p)
      && Vertex(poly, e.0).lon != Vertex(poly, e.1).lon
  {
    OpenCandidatesExactly(poly, p, |poly| - 1);
  }

  /**
   * Latitude, relative to `p`, at which the line through `v1` and `v2`
   * meets the longitude of `p`. Python raises ZeroDivisionError when the
   * longitudes are equal; the test only calls it on straddling edges.
   */
  function IntersectionX(v1: Location, v2: Location, p: Location): (r: real)
    requires v1.lon != v2.lon
    // the point (p.lat + r, p.lon) lies on the line through v1 and v2
    ensures (r - (v1.lat - p.lat)) * (v2.lon - v1.lon) == ((v2.lat - v1.lat)) * (p.lon - v1.lon)
    // on a straddling edge it lies between the two endpoints
    ensures Straddles(v1, v2, p) ==>
      Min(v1.lat, v2.lat) - p.lat <= r <= Max(v1.lat, v2.lat) - p.lat
  {
    var x1, x2 := v1.lat - p.lat, v2.lat - p.lat;
    var y1, y2 := v1.lon - p.lon, v2.lon - p.lon;
    var r := (x1 * y2 - x2 * y1) / (y2 - y1);
    InterceptFacts(x1, x2, y1, y2, r);
    r
  }

  lemma InterceptFacts(x1: real, x2: real, y1: real, y2: real, r: real)
    requires y2 != y1 && r == (x1 * y2 - x2 * y1) / (y2 - y1)
    ensures (r - x1) * (y2 - y1) == (x2 - x1) * (0.0 - y1)
    ensures (y1 < 0.0 < y2 || y2 < 0.0 < y1) ==> Min(x1, x2) <= r <= Max(x1, x2)
  {
    var d := y2 - y1;
    assert r * d == x1 * y2 - x2 * y1;
    var t := (0.0 - y1) / d;
    assert t * d == 0.0 - y1;
    assert (r - x1) * d == (x2 - x1) * (t * d);
    assert r - x1 == (x2 - x1) * t by {
      assert (r - x1) * d == ((x2 - x1) * t) * d;
    }
    if y1 < 0.0 < y2 || y2 < 0.0 < y1 {
      if y1 < 0.0 { DivBelowOne(0.0 - y1, d); } else { DivBelowOneNeg(0.0 - y1, d); }
      if x1 <= x2 {
        MulNonNeg(x2 - x1, t);
        MulNonNeg(x2 - x1, 1.0 - t);
      } else {
        MulNonNeg(x1 - x2, t);
        MulNonNeg(x1 - x2, 1.0 - t);
      }
    }
  }

  lemma MulNonNeg(x: real, y: real)
    requires x >= 0.0 && y >= 0.0
    ensures x * y >= 0.0
  {
  }

  lemma DivBelowOne(a: real, d: real)
    requires 0.0 < a < d
    ensures 0.0 < a / d < 1.0
  {
    var t := a / d;
    assert (t - 1.0) * d == a - d;
    if t >= 1.0 { MulNonNeg(t - 1.0, d); }
    if t <= 0.0 { MulNonNeg(0.0 - t, d); }
  }

  lemma DivBelowOneNeg(a: real, d: real)
    requires d < a < 0.0
    ensures 0.0 < a / d < 1.0
  {
    DivBelowOne(0.0 - a, 0.0 - d);
    assert (0.0 - a) / (0.0 - d) == a / d;
  }

  /** Whether the edge from `a` to `b` is a straddling edge whose intercept is positive. */
  predicate Crosses(a: Location, b: Location, p: Location) {
    Straddles(a, b, p) && IntersectionX(a, b, p) > 0.0
  }

  /** Crossings of the ray among the open edges (i, i+1) with i < n. */
  function OpenCrossings(poly: Polygon, p: Location, n: nat): nat
    requires n < |poly|
  {
    if n == 0 then 0
    else OpenCrossings(poly, p, n - 1) + (if Crosses(poly[n - 1], poly[n], p) then 1 else 0)
  }

  /** Number of edges, the closing one included, that the ray from `p` in the +lat direction crosses. */
  function Crossings(poly: Polygon, p: Location): nat
    requires |poly| >= 1
  {
    OpenCrossings(poly, p, |poly| - 1) + (if Crosses(poly[0], poly[|poly| - 1], p) then 1 else 0)
  }

  /** The crossing-number verdict: inside iff the number of crossings is odd. */
  predicate Inside(poly: Polygon, p: Location)
    requires |poly| >= 1
  {
    Crossings(poly, p) % 2 == 1
  }

  /** Among the listed edges, how many have a positive intercept. */
  function PositiveIntercepts(poly: Polygon, p: Location, edges: seq<(int, int)>): nat
    requires forall e :: e in edges ==>
      -|poly| <= e.0 < |poly| && -|poly| <= e.1 < |poly| && Vertex(poly, e.0).lon != Vertex(poly, e.1).lon
  {
    if |edges| == 0 then 0
    else
      var e := edges[|edges| - 1];
      PositiveIntercepts(poly, p, edges[..|edges| - 1])
      + (if IntersectionX(Vertex(poly, e.0), Vertex(poly, e.1), p) > 0.0 then 1 else 0)
  }

  lemma {:induction false} OpenCandidatesCount(poly: Polygon, p: Location, n: nat)
    requires n < |poly|
    ensures forall e :: e in OpenCandidates(poly, p, n) ==>
      -|poly| <= e.0 < |poly| && -|poly| <= e.1 < |poly| && Vertex(poly, e.0).lon != Vertex(poly, e.1).lon
    ensures PositiveIntercepts(poly, p, OpenCandidates(poly, p, n)) == OpenCrossings(poly, p, n)
  {
    OpenCandidatesExactly(poly, p, n);
    if n > 0 {
      OpenCandidatesCount(poly, p, n - 1);
      var prev := OpenCandidates(poly, p, n - 1);
      if Straddles(poly[n - 1], poly[n], p) {
        var all := prev + [(n - 1, n)];
        assert all[..|all| - 1] == prev;
      } else {
        assert OpenCandidates(poly, p, n) == prev;
      }
    }
  }

  /** Counting positive intercepts over the examined edges gives exactly the crossings. */
  lemma CandidatesCount(poly: Polygon, p: Location)
    requires |poly| >= 1
    ensures forall e :: e in Candidates(poly, p) ==>
      -|poly| <= e.0 < |poly| && -|poly| <= e.1 < |poly| && Vertex(poly, e.0).lon != Vertex(poly, e.1).lon
    ensures PositiveIntercepts(poly, p, Candidates(poly, p)) == Crossings(poly, p)
  {
    CandidatesExactly(poly, p);
    var n := |poly| - 1;
    OpenCandidatesCount(poly, p, n);
    var open := OpenCandidates(poly, p, n);
    if Straddles(poly[0], poly[n], p) {
      var all := open + [(0, -1)];
      assert all[..|all| - 1] == open;
      assert Vertex(poly, -1) == poly[n];
    } else {
      assert Candidates(poly, p) == open;
    }
  }

  /** `_get_edges_to_check`: the straddling open edges in order, then the closing edge if it straddles. */
  method EdgesToCheck(poly: Polygon, p: Location) returns (r: Result<seq<(int, int)>, GeometryError>)
    ensures r.Err? <==> |poly| == 0
    ensures r.Ok? ==> r.value == Candidates(poly, p)
  {
    var edges: seq<(int, int)> := [];
    var i := 0;
    while i < |poly| - 1
      invariant 0 <= i <= if |poly| == 0 then 0 else |poly| - 1
      invariant |poly| > 0 ==> edges == OpenCandidates(poly, p, i)
    {
      var v1, v2 := poly[i], poly[i + 1];
      if Min(v1.lon, v2.lon) < p.lon < Max(v1.lon, v2.lon) {
        edges := edges + [(i, i + 1)];
      }
      i := i + 1;
    }
    if |poly| == 0 {
      return Err(EmptyPolygon);
    }
    var v1, v2 := poly[0], poly[|poly| - 1];
    if Min(v1.lon, v2.lon) < p.lon < Max(v1.lon, v2.lon) {
      edges := edges + [(0, -1)];
    }
    r := Ok(edges);
  }

  /**
   * `is_within_area`: counts the examined edges with a positive intercept
   * and answers whether that count is odd.
   */
  method IsWithinArea(poly: Polygon, p: Location) returns (r: Result<bool, GeometryError>)
    ensures r.Err? <==> |poly| == 0
    ensures r.Ok? ==> r.value == Inside(poly, p)
  {
    var checked := EdgesToCheck(poly, p);
    if checked.Err? {
      return Err(checked.error);
    }
    var edges := checked.value;
    CandidatesCount(poly, p);
    var count := 0;
    var j := 0;
    while j < |edges|
      invariant 0 <= j <= |edges|
      invariant count == PositiveIntercepts(poly, p, edges[..j])
    {
      var e := edges[j];
      var v1, v2 := Vertex(poly, e.0), Vertex(poly, e.1);
      var x := IntersectionX(v1, v2, p);
      if x > 0.0 {
        count := count + 1;
      }
      assert edges[..j + 1][..j] == edges[..j];
      j := j + 1;
    }
    assert edges[..j] == edges;
    r := Ok(count % 2 == 1);
  }

  lemma {:induction false} NoOpenCrossingsNorth(poly: Polygon, p: Location, n: nat)
    requires n < |poly|
    requires forall k :: 0 <= k < |poly| ==> poly[k].lat < p.lat
    ensures OpenCrossings(poly, p, n) == 0
  {
    if n > 0 {
      NoOpenCrossingsNorth(poly, p, n - 1);
    }
  }

  /** A point north of every vertex (larger latitude) is outside: every intercept is negative. */
  lemma OutsideWhenNorth(poly: Polygon, p: Location)
    requires |poly| >= 1
    requires forall k :: 0 <= k < |poly| ==> poly[k].lat < p.lat
    ensures !Inside(poly, p)
  {
    NoOpenCrossingsNorth(poly, p, |poly| - 1);
  }

  lemma {:induction false} NoOpenCrossingsBeside(poly: Polygon, p: Location, n: nat)
    requires n < |poly|
    requires (forall k :: 0 <= k < |poly| ==> poly[k].lon <= p.lon)
          || (forall k :: 0 <= k < |poly| ==> p.lon <= poly[k].lon)
    ensures OpenCrossings(poly, p, n) == 0
  {
    if n > 0 {
      NoOpenCrossingsBeside(poly, p, n - 1);
    }
  }

  /** A point whose longitude is not strictly inside the footprint's longitude range is outside: no edge straddles it. */
  lemma OutsideWhenBeside(poly: Polygon, p: Location)
    requires |poly| >= 1
    requires (forall k :: 0 <= k < |poly| ==> poly[k].lon <= p.lon)
          || (forall k :: 0 <= k < |poly| ==> p.lon <= poly[k].lon)
    ensures !Inside(poly, p)
  {
    NoOpenCrossingsBeside(poly, p, |poly| - 1);
  }

  /**
   * `get_current_building`: scans the footprints in the insertion order of
   * the dictionary and returns the first one that contains `p`, or None.
   * An empty footprint reached before any match raises IndexError.
   */
  method GetCurrentBuilding(polygons: seq<(string, Polygon)>, p: Location)
    returns (r: Result<Option<string>, GeometryError>)
    ensures r.Ok? && r.value.Some? ==> exists i ::
      0 <= i < |polygons| && polygons[i].0 == r.value.value
      && |polygons[i].1| >= 1 && Inside(polygons[i].1, p)
      && forall j :: 0 <= j < i ==> |polygons[j].1| >= 1 && !Inside(polygons[j].1, p)
    ensures r == Ok(None) <==>
      forall j :: 0 <= j < |polygons| ==> |polygons[j].1| >= 1 && !Inside(polygons[j].1, p)
    ensures r.Err? <==> exists i ::
      0 <= i < |polygons| && |polygons[i].1| == 0
      && forall j :: 0 <= j < i ==> |polygons[j].1| >= 1 && !Inside(polygons[j].1, p)
  {
    var i := 0;
    while i < |polygons|
      invariant 0 <= i <= |polygons|
      invariant forall j :: 0 <= j < i ==> |polygons[j].1| >= 1 && !Inside(polygons[j].1, p)
    {
      var within := IsWithinArea(polygons[i].1, p);
      if within.Err? {
        r := Err(within.error);
        return;
      }
      if within.value {
        r := Ok(Some(polygons[i].0));
        return;
      }
      i := i + 1;
    }
    r := Ok(None);
  }
}
