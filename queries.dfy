/**
  The locator's queries, stated as brute-force reference selections over
  every cached geometry. The spatial tree only narrows the candidates a
  query looks at; these definitions give the result the narrowing must
  preserve. Distances, the closest point of a segment, point-in-polygon and
  segment-rectangle tests are the geometry engine's, passed in as
  `Primitives`.
 */
module Queries {
  import opened Options
  import opened Geometry
  import opened Matches

  /** The geometry engine's primitives, over exact reals. */
  datatype Primitives = Primitives(
    distance: (Point, Point) -> real,
    closestOnSegment: (Point, Point, Point) -> Point,
    insidePolygon: (Point, Geometry) -> bool,
    segmentMeetsRect: (Point, Point, Rect) -> bool)

  /**
    What a query sees of the index: the layer matches are reported against,
    the order in which a traversal of the spatial tree meets the indexed
    feature ids, and the cache of their geometries.
   */
  datatype IndexView = IndexView(layer: LayerRef, order: seq<FeatureId>, geoms: map<FeatureId, Geometry>)

  /** No element of `s` occurs twice. */
  predicate NoRepeats<T(==)>(s: seq<T>) {
    forall i, j :: 0 <= i < j < |s| ==> s[i] != s[j]
  }

  predicate Indexed(view: IndexView, fid: FeatureId) {
    fid in view.order && fid in view.geoms
  }

  /** The candidate match for vertex `i` of feature `fid`. */
  function VertexMatch(view: IndexView, fid: FeatureId, i: int, p: Point, prims: Primitives): Match
    requires fid in view.geoms && 0 <= i < |Vertices(view.geoms[fid])|
  {
    var v := Vertices(view.geoms[fid])[i];
    Match(Vertex, prims.distance(p, v), v, view.layer, fid, i, (Origin, Origin))
  }

  /** The candidate match for edge `k` of feature `fid`: the closest point of that edge to `p`. */
  function EdgeMatch(view: IndexView, fid: FeatureId, k: int, p: Point, prims: Primitives): Match
    requires fid in view.geoms && 0 <= k < |Edges(view.geoms[fid])|
  {
    var e := Edges(view.geoms[fid])[k];
    var q := prims.closestOnSegment(p, e.a, e.b);
    Match(Edge, prims.distance(p, q), q, view.layer, fid, e.vertexIndex, (e.a, e.b))
  }

  /** The match reported for edge `k` of feature `fid` by the rectangle query: no distance, no point. */
  function RectEdgeMatch(view: IndexView, fid: FeatureId, k: int): Match
    requires fid in view.geoms && 0 <= k < |Edges(view.geoms[fid])|
  {
    var e := Edges(view.geoms[fid])[k];
    Match(Edge, 0.0, Origin, view.layer, fid, e.vertexIndex, (e.a, e.b))
  }

  /** The match reported for a polygon feature that covers `p`. */
  function AreaMatch(view: IndexView, fid: FeatureId, p: Point): Match {
    Match(Area, 0.0, p, view.layer, fid, 0, (Origin, Origin))
  }

  /** Whether the cached geometry of `fid` is a polygon whose box and whose interior hold `p`. */
  predicate Covers(view: IndexView, fid: FeatureId, p: Point, prims: Primitives)
    requires fid in view.geoms
  {
    var g := view.geoms[fid];
    && g.shape == PolygonShape
    && BoundingBox(g).Some? && BoundingBox(g).value.Contains(p)
    && prims.insidePolygon(p, g)
  }

  /** Whether the cached box of `fid` meets `rect` (the tree's range test). */
  predicate BoxMeets(view: IndexView, fid: FeatureId, rect: Rect)
    requires fid in view.geoms
  {
    BoundingBox(view.geoms[fid]).Some? && BoundingBox(view.geoms[fid]).value.Intersects(rect)
  }

  /** What a query asks of each feature. */
  datatype Probe = VertexProbe(point: Point) | EdgeProbe(point: Point) | RectProbe(rect: Rect) | AreaProbe(point: Point)

  /** The candidates one feature contributes to a query. */
  function FeatureMatches(view: IndexView, fid: FeatureId, probe: Probe, prims: Primitives): seq<Match>
    requires fid in view.geoms
  {
    var g := view.geoms[fid];
    match probe
    case VertexProbe(p) =>
      seq(|Vertices(g)|, i requires 0 <= i < |Vertices(g)| => VertexMatch(view, fid, i, p, prims))
    case EdgeProbe(p) =>
      seq(|Edges(g)|, k requires 0 <= k < |Edges(g)| => EdgeMatch(view, fid, k, p, prims))
    case RectProbe(r) =>
      if BoxMeets(view, fid, r) then seq(|Edges(g)|, k requires 0 <= k < |Edges(g)| => RectEdgeMatch(view, fid, k))
      else []
    case AreaProbe(p) =>
      if Covers(view, fid, p, prims) then [AreaMatch(view, fid, p)] else []
  }

  /** The candidates of the features from position `from` of the traversal on, in traversal order. */
  function Gather(view: IndexView, probe: Probe, prims: Primitives, from: nat): seq<Match>
    requires from <= |view.order|
    decreases |view.order| - from
  {
    if from == |view.order| then []
    else
      var fid := view.order[from];
      (if fid in view.geoms then FeatureMatches(view, fid, probe, prims) else [])
      + Gather(view, probe, prims, from + 1)
  }

  /** Every gathered candidate comes from an indexed feature. */
  lemma {:induction false} GatherSound(view: IndexView, probe: Probe, prims: Primitives, from: nat, c: Match)
    requires from <= |view.order|
    requires c in Gather(view, probe, prims, from)
    decreases |view.order| - from
    ensures exists fid :: Indexed(view, fid) && c in FeatureMatches(view, fid, probe, prims)
  {
    var fid := view.order[from];
    var head := if fid in view.geoms then FeatureMatches(view, fid, probe, prims) else [];
    if c !in head {
      GatherSound(view, probe, prims, from + 1, c);
    }
  }

  /** Every candidate of a feature met at or after position `from` is gathered. */
  lemma {:induction false} GatherComplete(view: IndexView, probe: Probe, prims: Primitives, from: nat, j: nat, c: Match)
    requires from <= j < |view.order|
    requires view.order[j] in view.geoms
    requires c in FeatureMatches(view, view.order[j], probe, prims)
    ensures c in Gather(view, probe, prims, from)
    decreases j - from
  {
    var fid := view.order[from];
    var head := if fid in view.geoms then FeatureMatches(view, fid, probe, prims) else [];
    assert Gather(view, probe, prims, from) == head + Gather(view, probe, prims, from + 1);
    if from < j {
      GatherComplete(view, probe, prims, from + 1, j, c);
    } else {
      assert c in head;
    }
  }

  lemma GatherCompleteFor(view: IndexView, probe: Probe, prims: Primitives, fid: FeatureId, c: Match)
    requires Indexed(view, fid)
    requires c in FeatureMatches(view, fid, probe, prims)
    ensures c in Gather(view, probe, prims, 0)
  {
    var j :| 0 <= j < |view.order| && view.order[j] == fid;
    GatherComplete(view, probe, prims, 0, j, c);
  }

  /** The candidates of one traversal position, nothing for an id without a cached geometry. */
  function Contribution(view: IndexView, probe: Probe, prims: Primitives, j: nat): seq<Match>
    requires j < |view.order|
  {
    if view.order[j] in view.geoms then FeatureMatches(view, view.order[j], probe, prims) else []
  }

  lemma GatherStep(view: IndexView, probe: Probe, prims: Primitives, j: nat)
    requires j < |view.order|
    ensures Gather(view, probe, prims, j) == Contribution(view, probe, prims, j) + Gather(view, probe, prims, j + 1)
  {
  }

  /** Fewer candidates are gathered from a later position. */
  lemma {:induction false} GatherShrinks(view: IndexView, probe: Probe, prims: Primitives, from: nat, j: nat)
    requires from <= j <= |view.order|
    ensures |Gather(view, probe, prims, j)| <= |Gather(view, probe, prims, from)|
    decreases j - from
  {
    if from < j {
      GatherStep(view, probe, prims, from);
      GatherShrinks(view, probe, prims, from + 1, j);
    }
  }

  /** The candidates gathered from position `j` on end those gathered from `from` on. */
  lemma {:induction false} GatherSuffix(view: IndexView, probe: Probe, prims: Primitives, from: nat, j: nat, t: nat)
    requires from <= j <= |view.order| && t < |Gather(view, probe, prims, j)|
    ensures |Gather(view, probe, prims, j)| <= |Gather(view, probe, prims, from)|
    ensures Gather(view, probe, prims, from)[|Gather(view, probe, prims, from)| - |Gather(view, probe, prims, j)| + t]
            == Gather(view, probe, prims, j)[t]
    decreases j - from
  {
    if from < j {
      var head := Contribution(view, probe, prims, from);
      var rest := Gather(view, probe, prims, from + 1);
      GatherStep(view, probe, prims, from);
      GatherSuffix(view, probe, prims, from + 1, j, t);
      var n := |rest| - |Gather(view, probe, prims, j)| + t;
      assert (head + rest)[|head| + n] == rest[n];
    }
  }

  /** Where candidate `t` of the feature at traversal position `j` sits among the gathered candidates. */
  function Position(view: IndexView, probe: Probe, prims: Primitives, j: nat, t: nat): int
    requires j <= |view.order|
  {
    |Gather(view, probe, prims, 0)| - |Gather(view, probe, prims, j)| + t
  }

  /** Candidate `t` of the feature at traversal position `j` is the gathered candidate at its position. */
  lemma GatherAt(view: IndexView, probe: Probe, prims: Primitives, j: nat, t: nat)
    requires j < |view.order| && view.order[j] in view.geoms
    requires t < |FeatureMatches(view, view.order[j], probe, prims)|
    ensures |Gather(view, probe, prims, j)| == |FeatureMatches(view, view.order[j], probe, prims)| + |Gather(view, probe, prims, j + 1)|
    ensures 0 <= Position(view, probe, prims, j, t) < |Gather(view, probe, prims, 0)|
    ensures Gather(view, probe, prims, 0)[Position(view, probe, prims, j, t)] == FeatureMatches(view, view.order[j], probe, prims)[t]
  {
    GatherStep(view, probe, prims, j);
    GatherSuffix(view, probe, prims, 0, j, t);
  }

  /** Candidates keep the traversal order of their features, and their own order within a feature. */
  lemma PositionsInOrder(view: IndexView, probe: Probe, prims: Primitives, j: nat, t: nat, j0: nat, t0: nat)
    requires j < |view.order| && view.order[j] in view.geoms
    requires t < |FeatureMatches(view, view.order[j], probe, prims)|
    requires j0 <= |view.order|
    requires j < j0 || (j == j0 && t < t0)
    ensures Position(view, probe, prims, j, t) < Position(view, probe, prims, j0, t0)
  {
    GatherStep(view, probe, prims, j);
    if j < j0 {
      GatherShrinks(view, probe, prims, j + 1, j0);
    }
  }

  /** Every position of the gathered candidates holds candidate `t` of the feature at some position `j`. */
  lemma {:induction false} GatherLocate(view: IndexView, probe: Probe, prims: Primitives, from: nat, a: nat)
      returns (j: nat, t: nat)
    requires from <= |view.order| && a < |Gather(view, probe, prims, from)|
    ensures from <= j < |view.order| && view.order[j] in view.geoms
    ensures t < |FeatureMatches(view, view.order[j], probe, prims)|
    ensures a == |Gather(view, probe, prims, from)| - |Gather(view, probe, prims, j)| + t
    decreases |view.order| - from
  {
    var head := Contribution(view, probe, prims, from);
    GatherStep(view, probe, prims, from);
    if a < |head| {
      j, t := from, a;
    } else {
      j, t := GatherLocate(view, probe, prims, from + 1, a - |head|);
    }
  }

  /**
    The nearest gathered candidate comes from the feature met first in the
    traversal, and within it from the earliest candidate, among all the
    eligible candidates that are at least as near.
   */
  lemma NearestIsEarliest(view: IndexView, probe: Probe, prims: Primitives, tolerance: real, filter: MatchFilter)
      returns (j0: nat, t0: nat)
    requires Nearest(Gather(view, probe, prims, 0), tolerance, filter).IsValid()
    ensures j0 < |view.order| && view.order[j0] in view.geoms
    ensures t0 < |FeatureMatches(view, view.order[j0], probe, prims)|
    ensures Nearest(Gather(view, probe, prims, 0), tolerance, filter) == FeatureMatches(view, view.order[j0], probe, prims)[t0]
    ensures forall j, t ::
      && 0 <= j < |view.order| && view.order[j] in view.geoms
      && 0 <= t < |FeatureMatches(view, view.order[j], probe, prims)|
      && Eligible(FeatureMatches(view, view.order[j], probe, prims)[t], tolerance, filter)
      && FeatureMatches(view, view.order[j], probe, prims)[t].distance
         <= Nearest(Gather(view, probe, prims, 0), tolerance, filter).distance
      ==> j0 < j || (j0 == j && t0 <= t)
  {
    var cands := Gather(view, probe, prims, 0);
    var r := Nearest(cands, tolerance, filter);
    var k :| 0 <= k < |cands| && r == cands[k] &&
      forall i :: 0 <= i < k && Eligible(cands[i], tolerance, filter) ==> r.distance < cands[i].distance;
    j0, t0 := GatherLocate(view, probe, prims, 0, k);
    assert k == Position(view, probe, prims, j0, t0);
    GatherAt(view, probe, prims, j0, t0);
    forall j, t | 0 <= j < |view.order| && view.order[j] in view.geoms
           && 0 <= t < |FeatureMatches(view, view.order[j], probe, prims)|
           && Eligible(FeatureMatches(view, view.order[j], probe, prims)[t], tolerance, filter)
           && FeatureMatches(view, view.order[j], probe, prims)[t].distance <= r.distance
      ensures j0 < j || (j0 == j && t0 <= t)
    {
      GatherAt(view, probe, prims, j, t);
      if j < j0 || (j == j0 && t < t0) {
        PositionsInOrder(view, probe, prims, j, t, j0, t0);
        assert false;
      }
    }
  }


  /** A candidate a nearest query may return: a real match, within tolerance, accepted by the filter. */
  predicate Eligible(m: Match, tolerance: real, filter: MatchFilter) {
    m.IsValid() && m.distance <= tolerance && Accepts(filter, m)
  }

  /**
    The position of the nearest eligible candidate among the first `n`,
    the earliest one on a tie, or -1 when none is eligible.
   */
  function FirstNearest(cands: seq<Match>, n: nat, tolerance: real, filter: MatchFilter): (k: int)
    requires n <= |cands|
    ensures -1 <= k < n
    ensures k == -1 <==> forall i :: 0 <= i < n ==> !Eligible(cands[i], tolerance, filter)
    ensures k >= 0 ==> Eligible(cands[k], tolerance, filter)
    ensures k >= 0 ==> forall i :: 0 <= i < n && Eligible(cands[i], tolerance, filter) ==>
                                     cands[k].distance <= cands[i].distance
    ensures k >= 0 ==> forall i :: 0 <= i < k && Eligible(cands[i], tolerance, filter) ==>
                                     cands[k].distance < cands[i].distance
  {
    if n == 0 then -1
    else
      var k := FirstNearest(cands, n - 1, tolerance, filter);
      var c := cands[n - 1];
      if Eligible(c, tolerance, filter) && (k == -1 || c.distance < cands[k].distance) then n - 1 else k
  }

  /** The nearest eligible candidate (the earliest on a tie), or the invalid match. */
  function Nearest(cands: seq<Match>, tolerance: real, filter: MatchFilter): (r: Match)
    ensures !r.IsValid() ==> r == InvalidMatch
    ensures r.IsValid() <==> exists i :: 0 <= i < |cands| && Eligible(cands[i], tolerance, filter)
    ensures r.IsValid() ==> r in cands && Eligible(r, tolerance, filter)
    ensures r.IsValid() ==>
      exists k :: 0 <= k < |cands| && r == cands[k] &&
        forall i :: 0 <= i < k && Eligible(cands[i], tolerance, filter) ==> r.distance < cands[i].distance
    ensures r.IsValid() ==> forall i :: 0 <= i < |cands| && Eligible(cands[i], tolerance, filter) ==>
                                          r.distance <= cands[i].distance
  {
    var k := FirstNearest(cands, |cands|, tolerance, filter);
    if k < 0 then InvalidMatch else cands[k]
  }

  /** nearestVertex: the closest accepted vertex within `tolerance`, or the invalid match. */
  function NearestVertex(view: IndexView, p: Point, tolerance: real, filter: MatchFilter, prims: Primitives): (r: Match)
    ensures r.IsValid() ==> r.HasVertex() && r.distance <= tolerance && Accepts(filter, r)
  {
    var cands := Gather(view, VertexProbe(p), prims, 0);
    var r := Nearest(cands, tolerance, filter);
    if r.IsValid() then
      GatherSound(view, VertexProbe(p), prims, 0, r);
      r
    else r
  }

  /** nearestEdge: the closest accepted point on an edge within `tolerance`, or the invalid match. */
  function NearestEdge(view: IndexView, p: Point, tolerance: real, filter: MatchFilter, prims: Primitives): (r: Match)
    ensures r.IsValid() ==> r.HasEdge() && r.distance <= tolerance && Accepts(filter, r)
  {
    var cands := Gather(view, EdgeProbe(p), prims, 0);
    var r := Nearest(cands, tolerance, filter);
    if r.IsValid() then
      GatherSound(view, EdgeProbe(p), prims, 0, r);
      r
    else r
  }

  /** pointInPolygon: one area match per indexed polygon covering `p`, in traversal order. */
  function PointInPolygon(view: IndexView, p: Point, prims: Primitives): (r: seq<Match>)
    ensures forall i :: 0 <= i < |r| ==> r[i].HasArea() && r[i].point == p && r[i].distance == 0.0
  {
    var r := Gather(view, AreaProbe(p), prims, 0);
    GatheredAreasAreAreas(view, p, prims, r);
    r
  }

  lemma GatheredAreasAreAreas(view: IndexView, p: Point, prims: Primitives, r: seq<Match>)
    requires r == Gather(view, AreaProbe(p), prims, 0)
    ensures forall i :: 0 <= i < |r| ==> r[i].HasArea() && r[i].point == p && r[i].distance == 0.0
  {
    forall i | 0 <= i < |r|
      ensures r[i].HasArea() && r[i].point == p && r[i].distance == 0.0
    {
      GatherSound(view, AreaProbe(p), prims, 0, r[i]);
    }
  }

  /**
    nearestArea: the first polygon covering `p`; failing that, when the
    tolerance is not 0, the nearest edge; otherwise the invalid match.
   */
  function NearestArea(view: IndexView, p: Point, tolerance: real, filter: MatchFilter, prims: Primitives): (r: Match)
    ensures r.IsValid() ==> r.HasArea() || r.HasEdge()
  {
    var areas := PointInPolygon(view, p, prims);
    if |areas| > 0 then areas[0]
    else if tolerance == 0.0 then InvalidMatch
    else NearestEdge(view, p, tolerance, filter, prims)
  }

  /** The candidates whose edge meets `rect` and which the filter accepts, in their order. */
  function SelectInRect(cands: seq<Match>, rect: Rect, filter: MatchFilter, prims: Primitives): (r: seq<Match>)
    ensures |r| <= |cands|
    ensures forall m :: m in r <==>
      m in cands && prims.segmentMeetsRect(m.edgePoints.0, m.edgePoints.1, rect) && Accepts(filter, m)
  {
    if |cands| == 0 then []
    else
      var c := cands[|cands| - 1];
      var rest := SelectInRect(cands[..|cands| - 1], rect, filter, prims);
      assert cands == cands[..|cands| - 1] + [c];
      if prims.segmentMeetsRect(c.edgePoints.0, c.edgePoints.1, rect) && Accepts(filter, c) then rest + [c]
      else rest
  }

  /** edgesInRect: every accepted edge of an indexed feature that meets `rect`. */
  function EdgesInRect(view: IndexView, rect: Rect, filter: MatchFilter, prims: Primitives): (r: seq<Match>)
  {
    SelectInRect(Gather(view, RectProbe(rect), prims, 0), rect, filter, prims)
  }

  // Properties of the queries over every indexed feature

  /** Vertex `i` of `fid` is indexed, lies within `tolerance` of `p`, and the filter accepts it. */
  predicate VertexWithin(view: IndexView, fid: FeatureId, i: int, p: Point, tolerance: real,
                         filter: MatchFilter, prims: Primitives)
  {
    && Indexed(view, fid) && 0 <= i < |Vertices(view.geoms[fid])|
    && Eligible(VertexMatch(view, fid, i, p, prims), tolerance, filter)
  }

  /** Edge `k` of `fid` is indexed, passes within `tolerance` of `p`, and the filter accepts it. */
  predicate EdgeWithin(view: IndexView, fid: FeatureId, k: int, p: Point, tolerance: real,
                       filter: MatchFilter, prims: Primitives)
  {
    && Indexed(view, fid) && 0 <= k < |Edges(view.geoms[fid])|
    && Eligible(EdgeMatch(view, fid, k, p, prims), tolerance, filter)
  }

  /** Edge `k` of `fid` is indexed, its box and the edge itself meet `rect`, and the filter accepts it. */
  predicate EdgeInRect(view: IndexView, fid: FeatureId, k: int, rect: Rect, filter: MatchFilter, prims: Primitives)
  {
    && Indexed(view, fid) && 0 <= k < |Edges(view.geoms[fid])|
    && BoxMeets(view, fid, rect)
    && prims.segmentMeetsRect(Edges(view.geoms[fid])[k].a, Edges(view.geoms[fid])[k].b, rect)
    && Accepts(filter, RectEdgeMatch(view, fid, k))
  }

  lemma VertexCandidateShape(view: IndexView, fid: FeatureId, p: Point, prims: Primitives, c: Match)
    requires fid in view.geoms
    requires c in FeatureMatches(view, fid, VertexProbe(p), prims)
    ensures 0 <= c.vertexIndex < |Vertices(view.geoms[fid])|
    ensures c == VertexMatch(view, fid, c.vertexIndex, p, prims)
  {
    var s := FeatureMatches(view, fid, VertexProbe(p), prims);
    var i :| 0 <= i < |s| && s[i] == c;
  }

  lemma EdgeCandidateShape(view: IndexView, fid: FeatureId, p: Point, prims: Primitives, c: Match)
    requires fid in view.geoms
    requires c in FeatureMatches(view, fid, EdgeProbe(p), prims)
    ensures exists k :: 0 <= k < |Edges(view.geoms[fid])| && c == EdgeMatch(view, fid, k, p, prims)
  {
    var s := FeatureMatches(view, fid, EdgeProbe(p), prims);
    var k :| 0 <= k < |s| && s[k] == c;
    assert c == EdgeMatch(view, fid, k, p, prims);
  }

  /**
    nearestVertex returns the invalid match exactly when no indexed vertex
    within tolerance passes the filter; otherwise a vertex of an indexed
    feature, at its true distance, no farther than any other such vertex.
   */
  lemma NearestVertexIsClosest(view: IndexView, p: Point, tolerance: real, filter: MatchFilter, prims: Primitives)
    ensures var r := NearestVertex(view, p, tolerance, filter, prims);
      && (r.IsValid() <==> exists fid, i :: VertexWithin(view, fid, i, p, tolerance, filter, prims))
      && (!r.IsValid() ==> r == InvalidMatch)
      && (r.IsValid() ==>
            && Indexed(view, r.featureId) && r.layer == view.layer
            && 0 <= r.vertexIndex < |Vertices(view.geoms[r.featureId])|
            && r.point == Vertices(view.geoms[r.featureId])[r.vertexIndex]
            && r.distance == prims.distance(p, r.point))
      && (r.IsValid() ==> forall fid, i :: VertexWithin(view, fid, i, p, tolerance, filter, prims) ==>
            r.distance <= prims.distance(p, Vertices(view.geoms[fid])[i]))
  {
    var probe := VertexProbe(p);
    var cands := Gather(view, probe, prims, 0);
    var r := NearestVertex(view, p, tolerance, filter, prims);
    assert r == Nearest(cands, tolerance, filter);
    forall fid, i | VertexWithin(view, fid, i, p, tolerance, filter, prims)
      ensures VertexMatch(view, fid, i, p, prims) in cands
    {
      var s := FeatureMatches(view, fid, probe, prims);
      assert s[i] == VertexMatch(view, fid, i, p, prims);
      GatherCompleteFor(view, probe, prims, fid, s[i]);
    }
    if r.IsValid() {
      GatherSound(view, probe, prims, 0, r);
      var fid :| Indexed(view, fid) && r in FeatureMatches(view, fid, probe, prims);
      VertexCandidateShape(view, fid, p, prims, r);
      assert VertexWithin(view, fid, r.vertexIndex, p, tolerance, filter, prims);
    }
  }

  /**
    nearestEdge returns the invalid match exactly when no indexed edge within
    tolerance passes the filter; otherwise the closest point of an edge of an
    indexed feature, whose ends are the consecutive vertices `vertexIndex`
    and `vertexIndex + 1`, no farther than the closest point of any other
    such edge.
   */
  lemma NearestEdgeIsClosest(view: IndexView, p: Point, tolerance: real, filter: MatchFilter, prims: Primitives)
    ensures var r := NearestEdge(view, p, tolerance, filter, prims);
      && (r.IsValid() <==> exists fid, k :: EdgeWithin(view, fid, k, p, tolerance, filter, prims))
      && (!r.IsValid() ==> r == InvalidMatch)
      && (r.IsValid() ==>
            && Indexed(view, r.featureId) && r.layer == view.layer
            && 0 <= r.vertexIndex && r.vertexIndex + 1 < |Vertices(view.geoms[r.featureId])|
            && Vertices(view.geoms[r.featureId])[r.vertexIndex] == r.edgePoints.0
            && Vertices(view.geoms[r.featureId])[r.vertexIndex + 1] == r.edgePoints.1
            && r.point == prims.closestOnSegment(p, r.edgePoints.0, r.edgePoints.1)
            && r.distance == prims.distance(p, r.point))
      && (r.IsValid() ==> forall fid, k :: EdgeWithin(view, fid, k, p, tolerance, filter, prims) ==>
            r.distance <= EdgeMatch(view, fid, k, p, prims).distance)
  {
    var cands := Gather(view, EdgeProbe(p), prims, 0);
    var r := NearestEdge(view, p, tolerance, filter, prims);
    assert r == Nearest(cands, tolerance, filter);
    EdgesWithinAreGathered(view, p, tolerance, filter, prims);
    if r.IsValid() {
      NearestEdgeIsAnEdgeWithin(view, p, tolerance, filter, prims, r);
    }
  }

  lemma EdgesWithinAreGathered(view: IndexView, p: Point, tolerance: real, filter: MatchFilter, prims: Primitives)
    ensures forall fid, k :: EdgeWithin(view, fid, k, p, tolerance, filter, prims) ==>
      EdgeMatch(view, fid, k, p, prims) in Gather(view, EdgeProbe(p), prims, 0)
  {
    forall fid, k | EdgeWithin(view, fid, k, p, tolerance, filter, prims)
      ensures EdgeMatch(view, fid, k, p, prims) in Gather(view, EdgeProbe(p), prims, 0)
    {
      var s := FeatureMatches(view, fid, EdgeProbe(p), prims);
      assert s[k] == EdgeMatch(view, fid, k, p, prims);
      GatherCompleteFor(view, EdgeProbe(p), prims, fid, s[k]);
    }
  }

  lemma NearestEdgeIsAnEdgeWithin(view: IndexView, p: Point, tolerance: real, filter: MatchFilter, prims: Primitives, r: Match)
    requires r == NearestEdge(view, p, tolerance, filter, prims) && r.IsValid()
    ensures exists fid, k :: EdgeWithin(view, fid, k, p, tolerance, filter, prims)
    ensures Indexed(view, r.featureId) && r.layer == view.layer
    ensures 0 <= r.vertexIndex && r.vertexIndex + 1 < |Vertices(view.geoms[r.featureId])|
    ensures Vertices(view.geoms[r.featureId])[r.vertexIndex] == r.edgePoints.0
    ensures Vertices(view.geoms[r.featureId])[r.vertexIndex + 1] == r.edgePoints.1
    ensures r.point == prims.closestOnSegment(p, r.edgePoints.0, r.edgePoints.1)
    ensures r.distance == prims.distance(p, r.point)
  {
    var probe := EdgeProbe(p);
    assert r == Nearest(Gather(view, probe, prims, 0), tolerance, filter);
    GatherSound(view, probe, prims, 0, r);
    var fid :| Indexed(view, fid) && r in FeatureMatches(view, fid, probe, prims);
    EdgeCandidateShape(view, fid, p, prims, r);
    var k :| 0 <= k < |Edges(view.geoms[fid])| && r == EdgeMatch(view, fid, k, p, prims);
    EdgeJoinsConsecutiveVertices(view.geoms[fid], k);
    assert EdgeWithin(view, fid, k, p, tolerance, filter, prims);
  }

  /**
    Ties in nearestVertex go to the candidate met first: no eligible vertex
    at most as near belongs to a feature met earlier in the traversal, or
    has a lower number in the same feature.
   */
  lemma NearestVertexTieBreak(view: IndexView, p: Point, tolerance: real, filter: MatchFilter, prims: Primitives)
    ensures var r := NearestVertex(view, p, tolerance, filter, prims);
      r.IsValid() ==>
        exists j0 ::
          && 0 <= j0 < |view.order| && view.order[j0] == r.featureId
          && forall j, i ::
               && 0 <= j < |view.order| && VertexWithin(view, view.order[j], i, p, tolerance, filter, prims)
               && VertexMatch(view, view.order[j], i, p, prims).distance <= r.distance
               ==> j0 < j || (j0 == j && r.vertexIndex <= i)
  {
    var probe := VertexProbe(p);
    var r := NearestVertex(view, p, tolerance, filter, prims);
    assert r == Nearest(Gather(view, probe, prims, 0), tolerance, filter);
    if r.IsValid() {
      var j0, t0 := NearestIsEarliest(view, probe, prims, tolerance, filter);
      assert r == VertexMatch(view, view.order[j0], t0, p, prims);
      forall j, i | 0 <= j < |view.order| && VertexWithin(view, view.order[j], i, p, tolerance, filter, prims)
          && VertexMatch(view, view.order[j], i, p, prims).distance <= r.distance
        ensures j0 < j || (j0 == j && r.vertexIndex <= i)
      {
        assert FeatureMatches(view, view.order[j], probe, prims)[i] == VertexMatch(view, view.order[j], i, p, prims);
      }
    }
  }


  /**
    Ties in nearestEdge go to the candidate met first: no eligible edge at
    most as near belongs to a feature met earlier in the traversal, or has
    a lower number in the same feature.
   */
  lemma NearestEdgeTieBreak(view: IndexView, p: Point, tolerance: real, filter: MatchFilter, prims: Primitives)
    ensures var r := NearestEdge(view, p, tolerance, filter, prims);
      r.IsValid() ==>
        exists j0, k0 ::
          && 0 <= j0 < |view.order| && view.order[j0] in view.geoms
          && 0 <= k0 < |Edges(view.geoms[view.order[j0]])|
          && r == EdgeMatch(view, view.order[j0], k0, p, prims)
          && forall j, k ::
               && 0 <= j < |view.order| && EdgeWithin(view, view.order[j], k, p, tolerance, filter, prims)
               && EdgeMatch(view, view.order[j], k, p, prims).distance <= r.distance
               ==> j0 < j || (j0 == j && k0 <= k)
  {
    var probe := EdgeProbe(p);
    var r := NearestEdge(view, p, tolerance, filter, prims);
    assert r == Nearest(Gather(view, probe, prims, 0), tolerance, filter);
    if r.IsValid() {
      var j0, t0 := NearestIsEarliest(view, probe, prims, tolerance, filter);
      assert r == EdgeMatch(view, view.order[j0], t0, p, prims);
      forall j, k | 0 <= j < |view.order| && EdgeWithin(view, view.order[j], k, p, tolerance, filter, prims)
          && EdgeMatch(view, view.order[j], k, p, prims).distance <= r.distance
        ensures j0 < j || (j0 == j && t0 <= k)
      {
        assert FeatureMatches(view, view.order[j], probe, prims)[k] == EdgeMatch(view, view.order[j], k, p, prims);
      }
    }
  }


  /** pointInPolygon reports exactly the indexed polygons that cover the point, one area match each. */
  lemma PointInPolygonFindsCoveringPolygons(view: IndexView, p: Point, prims: Primitives)
    ensures forall m :: m in PointInPolygon(view, p, prims) <==>
      exists fid :: Indexed(view, fid) && Covers(view, fid, p, prims) && m == AreaMatch(view, fid, p)
  {
    var probe := AreaProbe(p);
    var r := PointInPolygon(view, p, prims);
    forall m | m in r
      ensures exists fid :: Indexed(view, fid) && Covers(view, fid, p, prims) && m == AreaMatch(view, fid, p)
    {
      GatherSound(view, probe, prims, 0, m);
      var fid :| Indexed(view, fid) && m in FeatureMatches(view, fid, probe, prims);
      assert Covers(view, fid, p, prims) && m == AreaMatch(view, fid, p);
    }
    forall fid | Indexed(view, fid) && Covers(view, fid, p, prims)
      ensures AreaMatch(view, fid, p) in r
    {
      assert FeatureMatches(view, fid, probe, prims) == [AreaMatch(view, fid, p)];
      GatherCompleteFor(view, probe, prims, fid, AreaMatch(view, fid, p));
    }
  }

  /** Every match in `ms` names a feature met at or after position `from` of `order`. */
  predicate MetFrom(ms: seq<Match>, order: seq<FeatureId>, from: nat)
    requires from <= |order|
  {
    forall i :: 0 <= i < |ms| ==> ms[i].featureId in order[from..]
  }

  /** No two matches in `ms` name the same feature. */
  predicate OnePerFeature(ms: seq<Match>) {
    forall i, j :: 0 <= i < j < |ms| ==> ms[i].featureId != ms[j].featureId
  }

  /** No two matches in `ms` are the same edge of the same feature. */
  predicate OnePerEdge(ms: seq<Match>) {
    forall i, j :: 0 <= i < j < |ms| ==> ms[i].featureId != ms[j].featureId || ms[i].vertexIndex != ms[j].vertexIndex
  }

  /**
    Matches of the feature at position `from`, followed by matches of
    features met later, are all met from `from` on, and when the order
    repeats no feature the two groups share no feature.
   */
  lemma JoinMetFrom(head: seq<Match>, tail: seq<Match>, order: seq<FeatureId>, from: nat)
    requires from < |order| && NoRepeats(order)
    requires forall i :: 0 <= i < |head| ==> head[i].featureId == order[from]
    requires MetFrom(tail, order, from + 1)
    ensures MetFrom(head + tail, order, from)
    ensures forall i, j :: 0 <= i < |head| && 0 <= j < |tail| ==> head[i].featureId != tail[j].featureId
  {
    assert order[from..] == [order[from]] + order[from + 1..];
  }


  /** At most one match, followed by matches of other features, one per feature. */
  lemma JoinOnePerFeature(head: seq<Match>, tail: seq<Match>)
    requires |head| <= 1 && OnePerFeature(tail)
    requires forall i, j :: 0 <= i < |head| && 0 <= j < |tail| ==> head[i].featureId != tail[j].featureId
    ensures OnePerFeature(head + tail)
  {
    var r := head + tail;
    forall i, j | 0 <= i < j < |r|
      ensures r[i].featureId != r[j].featureId
    {
      assert r[j] == tail[j - |head|];
      if i >= |head| {
        assert r[i] == tail[i - |head|];
      }
    }
  }

  /** Two runs of matches, one per edge each, with no feature in common, are one per edge together. */
  lemma JoinOnePerEdge(head: seq<Match>, tail: seq<Match>)
    requires OnePerEdge(head) && OnePerEdge(tail)
    requires forall i, j :: 0 <= i < |head| && 0 <= j < |tail| ==> head[i].featureId != tail[j].featureId
    ensures OnePerEdge(head + tail)
  {
    var r := head + tail;
    forall i, j | 0 <= i < j < |r|
      ensures r[i].featureId != r[j].featureId || r[i].vertexIndex != r[j].vertexIndex
    {
      if j < |head| {
        assert r[i] == head[i] && r[j] == head[j];
      } else if i < |head| {
        assert r[i] == head[i] && r[j] == tail[j - |head|];
      } else {
        assert r[i] == tail[i - |head|] && r[j] == tail[j - |head|];
      }
    }
  }
  /**
    The area matches gathered from position `from` on come from features met
    from that position on, and, when the traversal meets each feature once,
    no two of them come from the same feature.
   */
  lemma {:induction false} AreaGatherFrom(view: IndexView, p: Point, prims: Primitives, from: nat)
    requires from <= |view.order|
    requires NoRepeats(view.order)
    decreases |view.order| - from
    ensures MetFrom(Gather(view, AreaProbe(p), prims, from), view.order, from)
    ensures OnePerFeature(Gather(view, AreaProbe(p), prims, from))
  {
    if from < |view.order| {
      var fid := view.order[from];
      var head := if fid in view.geoms && Covers(view, fid, p, prims) then [AreaMatch(view, fid, p)] else [];
      var tail := Gather(view, AreaProbe(p), prims, from + 1);
      assert Gather(view, AreaProbe(p), prims, from) == head + tail;
      AreaGatherFrom(view, p, prims, from + 1);
      JoinMetFrom(head, tail, view.order, from);
      JoinOnePerFeature(head, tail);
    }
  }


  /**
    When the traversal meets each feature once, pointInPolygon reports each
    covering polygon once: no two of its matches name the same feature.
   */
  lemma PointInPolygonReportsEachPolygonOnce(view: IndexView, p: Point, prims: Primitives)
    requires NoRepeats(view.order)
    ensures var r := PointInPolygon(view, p, prims);
      forall i, j :: 0 <= i < j < |r| ==> r[i].featureId != r[j].featureId
  {
    assert PointInPolygon(view, p, prims) == Gather(view, AreaProbe(p), prims, 0);
    AreaGatherFrom(view, p, prims, 0);
  }

  /**
    nearestArea: when an indexed polygon covers the point, the first area
    match pointInPolygon reports; otherwise, with tolerance 0, the invalid
    match, and with any other tolerance, what nearestEdge returns.
   */
  lemma NearestAreaContract(view: IndexView, p: Point, tolerance: real, filter: MatchFilter, prims: Primitives)
    ensures var r := NearestArea(view, p, tolerance, filter, prims);
      var areas := PointInPolygon(view, p, prims);
      var covered := exists fid :: Indexed(view, fid) && Covers(view, fid, p, prims);
      && (covered <==> |areas| > 0)
      && (covered ==>
            && r == areas[0]
            && r.HasArea() && r.point == p && r.distance == 0.0
            && Indexed(view, r.featureId) && Covers(view, r.featureId, p, prims))
      && (!covered && tolerance == 0.0 ==> r == InvalidMatch)
      && (!covered && tolerance != 0.0 ==> r == NearestEdge(view, p, tolerance, filter, prims))
  {
    var areas := PointInPolygon(view, p, prims);
    PointInPolygonFindsCoveringPolygons(view, p, prims);
    forall fid | Indexed(view, fid) && Covers(view, fid, p, prims)
      ensures |areas| > 0
    {
      assert AreaMatch(view, fid, p) in areas;
    }
    if |areas| > 0 {
      assert areas[0] in areas;
      var first :| Indexed(view, first) && Covers(view, first, p, prims) && areas[0] == AreaMatch(view, first, p);
    }
  }

  /**
    edgesInRect reports exactly the accepted edges of indexed features that
    meet the rectangle, each joining two consecutive vertices of its feature.
   */
  lemma EdgesInRectAreTheMeetingEdges(view: IndexView, rect: Rect, filter: MatchFilter, prims: Primitives)
    ensures var r := EdgesInRect(view, rect, filter, prims);
      && (forall m :: m in r <==> exists fid, k :: EdgeInRect(view, fid, k, rect, filter, prims) && m == RectEdgeMatch(view, fid, k))
      && (forall m :: m in r ==>
            && m.HasEdge() && Indexed(view, m.featureId)
            && 0 <= m.vertexIndex && m.vertexIndex + 1 < |Vertices(view.geoms[m.featureId])|
            && Vertices(view.geoms[m.featureId])[m.vertexIndex] == m.edgePoints.0
            && Vertices(view.geoms[m.featureId])[m.vertexIndex + 1] == m.edgePoints.1)
  {
    var probe := RectProbe(rect);
    var cands := Gather(view, probe, prims, 0);
    var r := EdgesInRect(view, rect, filter, prims);
    forall m | m in r
      ensures exists fid, k :: EdgeInRect(view, fid, k, rect, filter, prims) && m == RectEdgeMatch(view, fid, k)
      ensures m.HasEdge() && Indexed(view, m.featureId)
      ensures 0 <= m.vertexIndex && m.vertexIndex + 1 < |Vertices(view.geoms[m.featureId])|
      ensures Vertices(view.geoms[m.featureId])[m.vertexIndex] == m.edgePoints.0
      ensures Vertices(view.geoms[m.featureId])[m.vertexIndex + 1] == m.edgePoints.1
    {
      GatherSound(view, probe, prims, 0, m);
      var fid :| Indexed(view, fid) && m in FeatureMatches(view, fid, probe, prims);
      var s := FeatureMatches(view, fid, probe, prims);
      var k :| 0 <= k < |s| && s[k] == m;
      assert m == RectEdgeMatch(view, fid, k);
      EdgeJoinsConsecutiveVertices(view.geoms[fid], k);
      assert EdgeInRect(view, fid, k, rect, filter, prims);
    }
    forall fid, k | EdgeInRect(view, fid, k, rect, filter, prims)
      ensures RectEdgeMatch(view, fid, k) in r
    {
      var s := FeatureMatches(view, fid, probe, prims);
      assert s[k] == RectEdgeMatch(view, fid, k);
      GatherCompleteFor(view, probe, prims, fid, s[k]);
    }
  }

  /** Keeping some candidates, in order, keeps them one per edge. */
  lemma {:induction false} SelectKeepsOnePerEdge(cands: seq<Match>, rect: Rect, filter: MatchFilter, prims: Primitives)
    requires OnePerEdge(cands)
    ensures OnePerEdge(SelectInRect(cands, rect, filter, prims))
    decreases |cands|
  {
    if |cands| > 0 {
      var init := cands[..|cands| - 1];
      var c := cands[|cands| - 1];
      assert forall i :: 0 <= i < |init| ==> init[i] == cands[i];
      SelectKeepsOnePerEdge(init, rect, filter, prims);
      var rest := SelectInRect(init, rect, filter, prims);
      forall m | m in rest
        ensures m.featureId != c.featureId || m.vertexIndex != c.vertexIndex
      {
        var i :| 0 <= i < |init| && init[i] == m;
      }
      var r := SelectInRect(cands, rect, filter, prims);
      if r != rest {
        assert r == rest + [c];
        forall i, j | 0 <= i < j < |r|
          ensures r[i].featureId != r[j].featureId || r[i].vertexIndex != r[j].vertexIndex
        {
          assert r[i] in rest;
        }
      }
    }
  }

  /** The rectangle candidates of one feature are its edges, one match each. */
  lemma FeatureEdgesOnePerEdge(view: IndexView, fid: FeatureId, rect: Rect, prims: Primitives)
    requires fid in view.geoms
    ensures OnePerEdge(FeatureMatches(view, fid, RectProbe(rect), prims))
    ensures forall i :: 0 <= i < |FeatureMatches(view, fid, RectProbe(rect), prims)| ==>
      FeatureMatches(view, fid, RectProbe(rect), prims)[i].featureId == fid
  {
    EdgesAreNumberedInOrder(view.geoms[fid]);
  }

  /**
    The rectangle candidates gathered from position `from` on come from
    features met from that position on, and, when the traversal meets each
    feature once, no two of them are the same edge.
   */
  lemma {:induction false} RectGatherFrom(view: IndexView, rect: Rect, prims: Primitives, from: nat)
    requires from <= |view.order|
    requires NoRepeats(view.order)
    decreases |view.order| - from
    ensures MetFrom(Gather(view, RectProbe(rect), prims, from), view.order, from)
    ensures OnePerEdge(Gather(view, RectProbe(rect), prims, from))
  {
    if from < |view.order| {
      var fid := view.order[from];
      var head := if fid in view.geoms then FeatureMatches(view, fid, RectProbe(rect), prims) else [];
      var tail := Gather(view, RectProbe(rect), prims, from + 1);
      assert Gather(view, RectProbe(rect), prims, from) == head + tail;
      if fid in view.geoms {
        FeatureEdgesOnePerEdge(view, fid, rect, prims);
      }
      RectGatherFrom(view, rect, prims, from + 1);
      JoinMetFrom(head, tail, view.order, from);
      JoinOnePerEdge(head, tail);
    }
  }


  /**
    When the traversal meets each feature once, edgesInRect reports each
    meeting edge once: no two of its matches are the same edge of the same
    feature.
   */
  lemma EdgesInRectReportsEachEdgeOnce(view: IndexView, rect: Rect, filter: MatchFilter, prims: Primitives)
    requires NoRepeats(view.order)
    ensures var r := EdgesInRect(view, rect, filter, prims);
      forall i, j :: 0 <= i < j < |r| ==> r[i].featureId != r[j].featureId || r[i].vertexIndex != r[j].vertexIndex
  {
    RectGatherFrom(view, rect, prims, 0);
    SelectKeepsOnePerEdge(Gather(view, RectProbe(rect), prims, 0), rect, filter, prims);
    assert OnePerEdge(EdgesInRect(view, rect, filter, prims));
  }
}
