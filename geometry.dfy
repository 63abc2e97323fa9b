/**
  Planar points, rectangles and feature geometries as the point locator sees
  them once they are cached: exact real coordinates, a bounding box per
  geometry, and the vertex and edge enumeration the queries walk over.
 */
module Geometry {
  import opened Options

  /** A map coordinate (QgsPointXY). */
  datatype Point = Point(x: real, y: real)

  /** The coordinate a default-constructed point holds. */
  const Origin: Point := Point(0.0, 0.0)

  /** An axis-aligned rectangle (QgsRectangle), corners included. */
  datatype Rect = Rect(xMin: real, yMin: real, xMax: real, yMax: real) {

    predicate IsNormalized() {
      xMin <= xMax && yMin <= yMax
    }

    predicate Contains(p: Point) {
      xMin <= p.x <= xMax && yMin <= p.y <= yMax
    }

    predicate Intersects(other: Rect) {
      && xMin <= other.xMax && other.xMin <= xMax
      && yMin <= other.yMax && other.yMin <= yMax
    }
  }

  function Min(a: real, b: real): real { if a <= b then a else b }
  function Max(a: real, b: real): real { if a <= b then b else a }
  function Abs(a: real): real { if a < 0.0 then -a else a }

  /**
    The square centred on `center` that the point-and-tolerance overload of
    the rectangle query builds from the corners `center - tolerance` and
    `center + tolerance`. The rectangle constructor normalizes its corners,
    so a negative tolerance gives the same square as its absolute value.
   */
  function RectAround(center: Point, tolerance: real): (r: Rect)
    ensures r.IsNormalized() && r.Contains(center)
    ensures r.xMax - r.xMin == 2.0 * Abs(tolerance) && r.yMax - r.yMin == 2.0 * Abs(tolerance)
    ensures r.xMin + r.xMax == 2.0 * center.x && r.yMin + r.yMax == 2.0 * center.y
  {
    var x0, x1 := center.x - tolerance, center.x + tolerance;
    var y0, y1 := center.y - tolerance, center.y + tolerance;
    Rect(Min(x0, x1), Min(y0, y1), Max(x0, x1), Max(y0, y1))
  }

  /** The smallest rectangle holding both `r` and `p`. */
  function Extend(r: Rect, p: Point): Rect {
    Rect(Min(r.xMin, p.x), Min(r.yMin, p.y), Max(r.xMax, p.x), Max(r.yMax, p.y))
  }

  /** The bounding box of a sequence of points, growing one point at a time; None for no points. */
  function BoundsOf(pts: seq<Point>): Option<Rect> {
    if |pts| == 0 then None
    else
      var rest := BoundsOf(pts[..|pts| - 1]);
      var last := pts[|pts| - 1];
      if rest.None? then Some(Rect(last.x, last.y, last.x, last.y))
      else Some(Extend(rest.value, last))
  }

  /**
    The bounding box is None exactly for no points; otherwise it is a
    normalized rectangle that holds every point and whose four sides each
    touch one of them.
   */
  lemma {:induction false} BoundsOfIsTightBox(pts: seq<Point>)
    ensures BoundsOf(pts).None? <==> |pts| == 0
    ensures BoundsOf(pts).Some? ==> var r := BoundsOf(pts).value;
      && r.IsNormalized()
      && (forall i :: 0 <= i < |pts| ==> r.Contains(pts[i]))
      && (exists i :: 0 <= i < |pts| && pts[i].x == r.xMin)
      && (exists i :: 0 <= i < |pts| && pts[i].y == r.yMin)
      && (exists i :: 0 <= i < |pts| && pts[i].x == r.xMax)
      && (exists i :: 0 <= i < |pts| && pts[i].y == r.yMax)
  {
    if |pts| > 0 {
      var init := pts[..|pts| - 1];
      BoundsOfIsTightBox(init);
      assert forall i :: 0 <= i < |init| ==> init[i] == pts[i];
    }
  }

  /** The kind of a layer's geometries. */
  datatype Shape = PointShape | LineShape | PolygonShape

  /**
    A feature geometry: a shape and its parts (points of a multipoint,
    lines of a multiline, rings of a polygon), each a run of vertices.
    `WellFormed` states the storage conventions.
   */
  datatype Geometry = Geometry(shape: Shape, parts: seq<seq<Point>>)

  /**
    Each point of a multipoint is a part of one vertex, and a ring is
    stored closed: it has at least two vertices and its last vertex repeats
    the first, so its closing segment is an ordinary edge.
   */
  predicate WellFormed(g: Geometry) {
    match g.shape
    case PointShape => forall j :: 0 <= j < |g.parts| ==> |g.parts[j]| == 1
    case LineShape => true
    case PolygonShape => forall j :: 0 <= j < |g.parts| ==> 2 <= |g.parts[j]| && g.parts[j][0] == g.parts[j][|g.parts[j]| - 1]
  }

  function Flatten(parts: seq<seq<Point>>): seq<Point> {
    if |parts| == 0 then [] else parts[0] + Flatten(parts[1..])
  }

  /** All vertices of a geometry, numbered across its parts (the vertex index). */
  function Vertices(g: Geometry): seq<Point> {
    Flatten(g.parts)
  }

  function BoundingBox(g: Geometry): Option<Rect> {
    BoundsOf(Vertices(g))
  }

  /** A segment between two consecutive vertices; `vertexIndex` numbers its first vertex. */
  datatype Segment = Segment(vertexIndex: nat, a: Point, b: Point)

  function PartEdges(part: seq<Point>, first: nat): seq<Segment> {
    seq(if |part| < 2 then 0 else |part| - 1,
        k requires 0 <= k < |part| - 1 => Segment(first + k, part[k], part[k + 1]))
  }

  function PartsEdges(parts: seq<seq<Point>>, first: nat): seq<Segment> {
    if |parts| == 0 then []
    else PartEdges(parts[0], first) + PartsEdges(parts[1..], first + |parts[0]|)
  }

  /** The segments of a geometry, part by part, never joining two parts. */
  function Edges(g: Geometry): seq<Segment> {
    PartsEdges(g.parts, 0)
  }

  /** The vertices of the later parts follow those of the first part. */
  lemma FlattenShift(parts: seq<seq<Point>>, i: nat)
    requires |parts| > 0 && i < |Flatten(parts[1..])|
    ensures |parts[0]| + i < |Flatten(parts)|
    ensures Flatten(parts)[|parts[0]| + i] == Flatten(parts[1..])[i]
  {
    assert Flatten(parts) == parts[0] + Flatten(parts[1..]);
  }

  lemma {:induction false} PartsEdgeJoinsConsecutiveVertices(parts: seq<seq<Point>>, first: nat, k: nat)
    requires k < |PartsEdges(parts, first)|
    ensures var e := PartsEdges(parts, first)[k];
      && first <= e.vertexIndex
      && e.vertexIndex - first + 1 < |Flatten(parts)|
      && Flatten(parts)[e.vertexIndex - first] == e.a
      && Flatten(parts)[e.vertexIndex - first + 1] == e.b
  {
    var head := PartEdges(parts[0], first);
    var rest := parts[1..];
    var tail := PartsEdges(rest, first + |parts[0]|);
    assert PartsEdges(parts, first) == head + tail;
    if k < |head| {
      assert Flatten(parts) == parts[0] + Flatten(rest);
      assert PartsEdges(parts, first)[k] == head[k] == Segment(first + k, parts[0][k], parts[0][k + 1]);
    } else {
      var j := k - |head|;
      assert PartsEdges(parts, first)[k] == tail[j];
      PartsEdgeJoinsConsecutiveVertices(rest, first + |parts[0]|, j);
      var i := tail[j].vertexIndex - (first + |parts[0]|);
      FlattenShift(parts, i);
      FlattenShift(parts, i + 1);
    }
  }

  /** Flattening one more part appends its vertices. */
  lemma FlattenPrefix(parts: seq<seq<Point>>, j: nat)
    requires 0 < j <= |parts|
    ensures Flatten(parts[..j]) == parts[0] + Flatten(parts[1..][..j - 1])
  {
    assert parts[..j][1..] == parts[1..][..j - 1];
  }

  /** Edge `k` runs between two consecutive vertices of one part, numbered from `first`. */
  lemma {:induction false} PartsEdgeInOnePart(parts: seq<seq<Point>>, first: nat, k: nat)
    requires k < |PartsEdges(parts, first)|
    ensures var e := PartsEdges(parts, first)[k];
      exists j, s :: 0 <= j < |parts| && 0 <= s && s + 1 < |parts[j]|
        && e.vertexIndex == first + |Flatten(parts[..j])| + s
        && e.a == parts[j][s] && e.b == parts[j][s + 1]
  {
    var head := PartEdges(parts[0], first);
    var rest := parts[1..];
    var tail := PartsEdges(rest, first + |parts[0]|);
    assert PartsEdges(parts, first) == head + tail;
    var e := PartsEdges(parts, first)[k];
    if k < |head| {
      assert e == head[k] == Segment(first + k, parts[0][k], parts[0][k + 1]);
      assert parts[..0] == [];
      assert e.vertexIndex == first + |Flatten(parts[..0])| + k;
    } else {
      assert e == tail[k - |head|];
      PartsEdgeInOnePart(rest, first + |parts[0]|, k - |head|);
      var j, s :| 0 <= j < |rest| && 0 <= s && s + 1 < |rest[j]|
        && e.vertexIndex == first + |parts[0]| + |Flatten(rest[..j])| + s
        && e.a == rest[j][s] && e.b == rest[j][s + 1];
      FlattenPrefix(parts, j + 1);
      assert e.vertexIndex == first + |Flatten(parts[..j + 1])| + s;
    }
  }

  /**
    Every edge of a geometry joins the vertices numbered `vertexIndex` and
    `vertexIndex + 1`, and both are consecutive vertices of one part: no
    edge joins two parts.
   */
  lemma EdgeJoinsConsecutiveVertices(g: Geometry, k: nat)
    requires k < |Edges(g)|
    ensures var e := Edges(g)[k];
      && e.vertexIndex + 1 < |Vertices(g)|
      && Vertices(g)[e.vertexIndex] == e.a
      && Vertices(g)[e.vertexIndex + 1] == e.b
    ensures var e := Edges(g)[k];
      exists j, s :: 0 <= j < |g.parts| && 0 <= s && s + 1 < |g.parts[j]|
        && e.vertexIndex == |Flatten(g.parts[..j])| + s
        && e.a == g.parts[j][s] && e.b == g.parts[j][s + 1]
  {
    PartsEdgeJoinsConsecutiveVertices(g.parts, 0, k);
    PartsEdgeInOnePart(g.parts, 0, k);
  }

  /** Segments in strictly increasing vertex order. */
  predicate InVertexOrder(es: seq<Segment>) {
    forall k1, k2 :: 0 <= k1 < k2 < |es| ==> es[k1].vertexIndex < es[k2].vertexIndex
  }

  /** The edges numbered from `first` come in strictly increasing vertex order. */
  lemma {:induction false} PartsEdgesIncrease(parts: seq<seq<Point>>, first: nat)
    ensures InVertexOrder(PartsEdges(parts, first))
    decreases |parts|
  {
    if |parts| > 0 {
      var next := first + |parts[0]|;
      var head := PartEdges(parts[0], first);
      var tail := PartsEdges(parts[1..], next);
      var es := PartsEdges(parts, first);
      assert es == head + tail;
      PartsEdgesIncrease(parts[1..], next);
      assert InVertexOrder(tail);
      forall k | 0 <= k < |tail|
        ensures next <= tail[k].vertexIndex
      {
        PartsEdgeJoinsConsecutiveVertices(parts[1..], next, k);
      }
      forall k1, k2 | 0 <= k1 < k2 < |es|
        ensures es[k1].vertexIndex < es[k2].vertexIndex
      {
        if k2 < |head| {
          assert es[k1] == head[k1] && es[k2] == head[k2];
        } else if k1 < |head| {
          assert es[k1] == head[k1] && es[k2] == tail[k2 - |head|];
          assert es[k1].vertexIndex == first + k1 < next;
        } else {
          assert es[k1] == tail[k1 - |head|] && es[k2] == tail[k2 - |head|];
        }
      }
    }
  }

  /** The edges of a geometry are numbered in strictly increasing vertex order, so no two share a number. */
  lemma EdgesAreNumberedInOrder(g: Geometry)
    ensures forall k1, k2 :: 0 <= k1 < k2 < |Edges(g)| ==> Edges(g)[k1].vertexIndex < Edges(g)[k2].vertexIndex
  {
    PartsEdgesIncrease(g.parts, 0);
    assert InVertexOrder(Edges(g));
  }

  /** A well-formed point geometry has no edges. */
  lemma {:induction false} SinglePointPartsHaveNoEdges(parts: seq<seq<Point>>, first: nat)
    requires forall j :: 0 <= j < |parts| ==> |parts[j]| == 1
    ensures PartsEdges(parts, first) == []
    decreases |parts|
  {
    if |parts| > 0 {
      assert PartEdges(parts[0], first) == [];
      SinglePointPartsHaveNoEdges(parts[1..], first + 1);
    }
  }

  /**
    A well-formed point geometry has no edges; in a well-formed polygon the
    last edge of each ring closes it, ending at the ring's first vertex.
   */
  lemma WellFormedEdges(g: Geometry)
    requires WellFormed(g)
    ensures g.shape == PointShape ==> Edges(g) == []
    ensures g.shape == PolygonShape ==> forall j :: 0 <= j < |g.parts| ==>
      var ring := g.parts[j];
      PartEdges(ring, 0)[|ring| - 2].b == ring[0]
  {
    if g.shape == PointShape {
      SinglePointPartsHaveNoEdges(g.parts, 0);
    }
  }
}
