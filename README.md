# QGIS point locator, modelled in Dafny

`QgsPointLocator` (src/core/qgspointlocator.h) answers snapping queries for
one vector layer: the nearest vertex, the nearest edge, the nearest area,
the edges in a rectangle, and the polygons that cover a point. To do so it
keeps a geometry cache (`mGeoms`, feature id to geometry) and an R-tree of
bounding boxes (`mRTree`). A flag (`mIsEmptyLayer`) records that the layer
had nothing to index, and an optional extent restricts what is indexed. The
layer's edit notifications (feature added, deleted, geometry changed) keep
the cache and the tree in step with the layer.

The project has five files:

- `options.dfy`: the `Option` type, which stands in for nullable pointers.
- `geometry.dfy`: points, rectangles, the rectangle built from a centre and
  a tolerance, geometries made of parts, bounding boxes, and the numbering of
  vertices and edges.
- `matches.dfy`:
  - the `Type` flags;
  - the `Match` record: its constructors, its kind predicates and its edge
    points;
  - the match filter;
  - `operator==`, both as written and corrected (see "## Findings").
- `queries.dfy`: the five queries, each a brute-force reference selection
  over every cached geometry in the order a tree traversal meets them. The
  tree only narrows the candidates, so these definitions say what any
  narrowing must return. Distance, closest point on a segment,
  point-in-polygon and segment-meets-rectangle are the geometry engine's;
  they come in as a `Primitives` record.
- `locator.dfy`: the `PointLocator` class. Its fields are the extent, the
  cache, the tree (a set of `(fid, box)` registrations, absent until built)
  and the empty-layer flag. Its methods are the lifecycle (`Init`,
  `RebuildIndex`, `DestroyIndex`, `SetExtent`), the three notifications and
  the queries. `Valid()` is the class invariant: the tree's registrations
  are exactly the cached ids, each with its cached geometry's box; every
  cached geometry is indexable under the extent; there is no tree when the
  layer was found empty. `BuiltFrom(source)` says that the cache is exactly
  the indexable features of the layer.

The layer is not an object here. Wherever the locator reads the layer's
features, they are passed in as a `Layer`, a map from feature id to
geometry.

Modelling choices:

- The tolerance overload of `edgesInRect` builds its rectangle from the
  corners `point - tolerance` and `point + tolerance`. The rectangle
  constructor normalizes its corners; qgsrectangle.h is not part of this
  model, and `RectAround` states that normalization. A negative tolerance
  therefore gives the square of its absolute value.
- Geometries follow the geometry library's storage conventions, which
  `WellFormed` states. A multipoint has one vertex per part, so it has no
  edges. A ring is stored closed, so its closing segment is an ordinary edge.
  The locator does not check these conventions; it works on any geometry.
- `All` is an enumerator of the `Type` enum, so a match can be built with
  kind `All`. Such a match is valid (its kind is not `Invalid`) but has no
  vertex, edge or area, because each of those tests compares the kind for
  equality.
- The empty-layer flag follows the header comment at :278-279. A layer with
  nothing to index has no tree, but it needs no rebuild, so `HasIndex` holds
  and a second `Init` does nothing.
- `RebuildIndex` starts by destroying the index.
  - It then collects every indexable feature (`CollectIndexable`) and counts
    them.
  - It gives up as soon as the count exceeds a cap other than -1, and then
    keeps nothing.
  - A feature is indexable when its geometry has a bounding box and, with an
    extent set, that box meets the extent.
- `OnFeatureAdded`:
  - on a layer recorded as empty, it rebuilds with no cap;
  - with no index, it does nothing;
  - with an index, it caches and registers the feature if that feature is
    indexable under the extent (an id already cached is re-registered);
  - it reads the feature's geometry from the layer it is passed.
- `OnFeatureDeleted` removes the feature from the cache and the tree when an
  index exists.
  - Deleting the last feature leaves an empty tree.
  - The empty-layer flag is only ever set by a build.
- `OnGeometryChanged` is a delete followed by an add. The add reads the
  layer with the new geometry in place.
- Every query first builds a missing index with no cap (`Prepare`). It then
  answers from the cache over one traversal of the tree.
  - With an empty layer there is nothing to traverse, so every query
    reports nothing.
  - Which traversal is used is left open: the ensures clauses say "for some
    traversal order".
- Ties in `nearestVertex` and `nearestEdge` go to the candidate met first:
  the feature met first in the traversal, and then the lower vertex or edge
  number.
- `nearestArea`:
  - It returns the first polygon match of `pointInPolygon`.
  - Otherwise, with a tolerance other than 0, it returns the `nearestEdge`
    result; with tolerance 0 it returns the invalid match.
  - `pointInPolygon` takes no filter, so the filter only acts on the edge
    fallback.
- `edgesInRect` reports an edge of every indexed feature whose box meets the
  rectangle, provided the edge itself meets the rectangle and the filter
  accepts the match. Such a match has distance 0 and the default point. Its
  `vertexIndex` is the edge's first vertex.

## Model

| member | source | states |
|---|---|---|
| Matches.FlagsAreSingleBits | src/core/qgspointlocator.h:98-105 | `Invalid` is 0; `Vertex`, `Edge` and `Area` are distinct single bits; `All` is their union, 7 |
| Matches.FlagRoundTrip | src/core/qgspointlocator.h:98-107 | each kind's flag value, `All`'s 7 included, maps back to that kind |
| Matches.AllHoldsEveryKind | src/core/qgspointlocator.h:104-107 | the `All` combination holds every kind, `All` included, and not `Invalid` |
| Matches.DefaultMatchIsInvalid | src/core/qgspointlocator.h:121-122 | a default-constructed match has kind `Invalid`, is not valid, and has no vertex, edge or area |
| Matches.ValidityAndKinds | src/core/qgspointlocator.h:139-144 | `isValid` holds iff the kind is not `Invalid`; a match has at most one of vertex, edge and area, and exactly one iff its kind is a single flag; a match of kind `All` is valid yet has none of the three |
| Matches.MakeMatch | src/core/qgspointlocator.h:124-137 | every argument lands unchanged in its field; the edge points are the supplied pair, in order, when one is supplied, and the default points otherwise; the match is valid iff its kind is not `Invalid` |
| Matches.EqualsIsValueEquality | src/core/qgspointlocator.h:179-188 | the corrected comparison holds exactly when the two matches are equal in every field, both edge points included; it is reflexive and symmetric |
| Matches.EqualsIsTransitive | src/core/qgspointlocator.h:179-188 | the corrected comparison is transitive |
| Matches.CopiesCompareUnequalAsWritten | src/core/qgspointlocator.h:179-188 | as written, a copy of a match compares unequal to the original, although the by-value comparison calls them equal |
| Matches.AsWrittenIsIdentity | src/core/qgspointlocator.h:179-197 | as written, equal matches must be one object; one object always equals itself; with equal edge points the as-written result implies the by-value one |
| Geometry.RectAround | src/core/qgspointlocator.h:245-246 | the rectangle of the tolerance overload is normalized, holds the point, is centred on it, and is twice the absolute tolerance wide and high, so a negative tolerance gives the same square as its absolute value |
| Geometry.BoundsOfIsTightBox | src/core/qgspointlocator.h:275-276 | the box registered for a geometry is absent only for a geometry with no vertex; otherwise it is normalized, holds every vertex and touches a vertex on each side |
| Geometry.EdgeJoinsConsecutiveVertices | src/core/qgspointlocator.h:158-159 | every edge joins the vertices numbered `vertexIndex` and `vertexIndex + 1` of its geometry, and these are consecutive vertices of one part, so no edge joins two parts |
| Geometry.EdgesAreNumberedInOrder | src/core/qgspointlocator.h:158-159 | the edges of a geometry come in strictly increasing `vertexIndex` order, so no two edges of one feature share a number |
| Geometry.WellFormedEdges | src/core/qgspointlocator.h:158-159 | under the storage conventions, a point geometry has no edges and the last edge of a polygon ring closes it at the ring's first vertex |
| Queries.FirstNearest | src/core/qgspointlocator.h:219-229 | picks an eligible candidate (valid, within tolerance, accepted by the filter) no farther than any other eligible one and strictly nearer than every earlier eligible one; -1 iff none is eligible |
| Queries.Nearest | src/core/qgspointlocator.h:219-229 | the result is the invalid match iff no candidate is eligible; otherwise an eligible candidate no farther than any eligible candidate and strictly nearer than every earlier eligible one, so ties go to the earliest |
| Queries.NearestIsEarliest | src/core/qgspointlocator.h:219-229 | the nearest gathered candidate belongs to the feature met first in the traversal, and is that feature's earliest candidate, among all eligible candidates at least as near |
| Queries.GatherSound | src/core/qgspointlocator.h:219-252 | every candidate a query looks at comes from a feature that is both cached and met by the traversal |
| Queries.GatherCompleteFor | src/core/qgspointlocator.h:219-252 | every candidate of every cached feature the traversal meets is looked at |
| Queries.NearestVertex | src/core/qgspointlocator.h:219-223 | a valid result is a vertex match within tolerance that the filter accepts |
| Queries.NearestVertexIsClosest | src/core/qgspointlocator.h:219-223 | the result is invalid iff no indexed vertex lies within tolerance and passes the filter; otherwise it is a vertex of an indexed feature, at its true distance, no farther than any such vertex |
| Queries.NearestVertexTieBreak | src/core/qgspointlocator.h:219-223 | ties in nearestVertex go to the vertex met first: no eligible vertex at most as near belongs to a feature met earlier in the traversal, or has a lower number in the same feature |
| Queries.NearestEdge | src/core/qgspointlocator.h:225-229 | a valid result is an edge match within tolerance that the filter accepts |
| Queries.NearestEdgeIsClosest | src/core/qgspointlocator.h:225-229 | the result is invalid iff no indexed edge passes within tolerance and the filter. Otherwise it is the closest point of an edge of an indexed feature, whose edge points are the vertices `vertexIndex` and `vertexIndex + 1`, and no farther than the closest point of any such edge |
| Queries.NearestEdgeTieBreak | src/core/qgspointlocator.h:225-229 | ties in nearestEdge go to the edge met first: no eligible edge at most as near belongs to a feature met earlier in the traversal, or has a lower edge number in the same feature |
| Queries.NearestArea | src/core/qgspointlocator.h:231-238 | a valid result is an area match or an edge match |
| Queries.NearestAreaContract | src/core/qgspointlocator.h:231-238 | a covering polygon exists iff `pointInPolygon` reports one; then the result is its first match (an area at the point, at distance 0); otherwise tolerance 0 gives the invalid match and any other tolerance gives the `nearestEdge` result |
| Queries.PointInPolygon | src/core/qgspointlocator.h:248-252 | every reported match is an area match at the query point, at distance 0 |
| Queries.PointInPolygonFindsCoveringPolygons | src/core/qgspointlocator.h:248-252 | a match is reported iff it is the area match of an indexed polygon whose box and interior hold the point |
| Queries.PointInPolygonReportsEachPolygonOnce | src/core/qgspointlocator.h:248-252 | when the traversal meets each indexed feature once, no two reported matches name the same feature, so each covering polygon is reported exactly once |
| Queries.SelectInRect | src/core/qgspointlocator.h:240-244 | keeps exactly the candidates whose edge meets the rectangle and which the filter accepts, and no more of them than there were |
| Queries.EdgesInRectAreTheMeetingEdges | src/core/qgspointlocator.h:240-244 | a match is reported iff it is an accepted edge of an indexed feature whose box and whose segment meet the rectangle; each joins two consecutive vertices of its feature |
| Queries.EdgesInRectReportsEachEdgeOnce | src/core/qgspointlocator.h:240-244 | when the traversal meets each indexed feature once, no two reported matches are the same edge (same feature and `vertexIndex`), so each meeting edge is reported exactly once |
| Locator.TreeIdsAreCacheKeys | src/core/qgspointlocator.h:272-276 | the ids registered in the tree are exactly the cached ids, each with its cached geometry's box, and the tree is empty iff the cache is |
| Locator.IndexedAfterDelete | src/core/qgspointlocator.h:268 | deleting a feature from the layer removes exactly that feature from its complete index |
| Locator.IndexedAfterChange | src/core/qgspointlocator.h:269 | changing a feature's geometry replaces it in the complete index, or drops it when the new geometry is not indexable |
| Locator.IndexedAfterAdd | src/core/qgspointlocator.h:267 | adding a feature to the layer adds it to the complete index iff it is indexable |
| Locator.IndexedCountMonotone | src/core/qgspointlocator.h:109-114 | indexing part of a layer never indexes more features than indexing all of it |
| Locator.CapExceeded | src/core/qgspointlocator.h:109-114 | a build that has indexed more features than the cap from part of the layer is over the cap for the whole layer |
| Locator.CollectIndexable | src/core/qgspointlocator.h:109-114 | the feature loop of a build succeeds iff the indexable features number at most the cap (or the cap is -1), and then returns exactly those features and one registration per feature |
| Locator.PointLocator.constructor | src/core/qgspointlocator.h:55-67 | a new locator has no index, an empty cache and the given layer and extent |
| Locator.PointLocator.HasIndex | src/core/qgspointlocator.h:116-117 | true iff a tree exists or the layer was found empty, i.e. the locator is not in the unindexed state |
| Locator.PointLocator.CachedGeometryCount | src/core/qgspointlocator.h:256-260 | the number of cached geometries, which is also the number of ids registered in the tree, and 0 without an index |
| Locator.PointLocator.DestroyIndex | src/core/qgspointlocator.h:265 | afterwards there is no tree, no cached geometry, and a rebuild is needed; the extent is kept |
| Locator.PointLocator.SetExtent | src/core/qgspointlocator.h:89-93 | the new extent is stored and the index is destroyed, so the next build uses it |
| Locator.PointLocator.RebuildIndex | src/core/qgspointlocator.h:263 | succeeds iff the indexable features fit the cap. Success leaves the cache equal to them, the tree registering each of them, and the empty-layer flag set iff there were none. Failure leaves the destroyed index |
| Locator.PointLocator.Init | src/core/qgspointlocator.h:109-114 | with an index, changes nothing and returns true. Otherwise it builds, returning true iff the cap was not exceeded (always with cap -1), and false leaves no index and a cached count of 0 |
| Locator.PointLocator.OnFeatureAdded | src/core/qgspointlocator.h:267 | an empty layer is rebuilt; without an index nothing changes. With one, the feature is cached iff it is indexable, and a cache that was complete for the layer without it is complete for the layer with it |
| Locator.PointLocator.OnFeatureDeleted | src/core/qgspointlocator.h:268 | with an index, the feature leaves both the cache and the tree; without one nothing changes |
| Locator.PointLocator.OnGeometryChanged | src/core/qgspointlocator.h:269 | with an index, the feature's cached geometry becomes the new one if that is indexable and is dropped otherwise; an index complete for the old layer stays complete for the new one; an empty layer is rebuilt |
| Locator.PointLocator.TraversalOrder | src/core/qgspointlocator.h:276 | lists every id registered in the tree once and nothing else |
| Locator.PointLocator.Prepare | src/core/qgspointlocator.h:217-252 | a missing index is built with no cap (an existing one is left alone); the queries' view is the cache over a traversal of the tree |
| Locator.PointLocator.NearestVertex | src/core/qgspointlocator.h:219-223 | builds a missing index, then returns `Queries.NearestVertex` over the cache for some traversal of the tree |
| Locator.PointLocator.NearestEdge | src/core/qgspointlocator.h:225-229 | builds a missing index, then returns `Queries.NearestEdge` over the cache for some traversal of the tree |
| Locator.PointLocator.NearestArea | src/core/qgspointlocator.h:231-238 | builds a missing index, then returns `Queries.NearestArea` over the cache for some traversal of the tree |
| Locator.PointLocator.EdgesInRect | src/core/qgspointlocator.h:240-244 | builds a missing index, then returns `Queries.EdgesInRect` over the cache for some traversal of the tree; no two of its matches are the same edge of the same feature |
| Locator.PointLocator.EdgesInRectAround | src/core/qgspointlocator.h:245-246 | the same as `EdgesInRect` on the normalized square of half-side the absolute tolerance around the point; no two of its matches are the same edge of the same feature |
| Locator.PointLocator.PointInPolygon | src/core/qgspointlocator.h:248-252 | builds a missing index, then returns `Queries.PointInPolygon` over the cache for some traversal of the tree; no two of its matches name the same feature |
| Locator.InitTwice | src/core/qgspointlocator.h:109-114 | a second `init` with the same cap on the same layer returns what the first returned and leaves the index as it was. The pair keeps the extent; on an indexed locator it changes nothing; on an unindexed one it builds the index from the layer when it succeeds, and leaves the locator unindexed when the cap stops it |
| Locator.NoSnapToDeletedFeature | src/core/qgspointlocator.h:267-269 | after a feature is deleted, a nearest-vertex query never returns that feature |

## Left out

- The coordinate transform and the destination CRS (`destinationCrs`,
  `mTransform`, the transform context). Geometries are taken to be already
  in the working coordinates, so a failed reprojection is not modelled.
- Qt's object, signal and slot wiring and the SIP annotations. The
  notifications are plain methods that the caller invokes.
- The libspatialindex storage manager and the R-tree's internals. The tree
  is a set of `(fid, box)` registrations, and its nearest-neighbour and
  range traversals are an arbitrary order of those ids.
- The visitor classes that walk the tree. The queries are specified by
  what they must return, not by how the tree is walked.
- Floating-point arithmetic. Coordinates and distances are exact reals, and
  distance, closest point, point-in-polygon and segment-meets-rectangle are
  abstract functions. NaN, for which `==` is not reflexive, does not exist
  here.
- Point equality is exact equality of coordinates; qgspointxy.h is not part
  of this model.
- A filter is a pure predicate; a filter with state of its own, or one that
  fails, is not modelled.
- Layer access (`QgsVectorLayer`, feature requests). The layer's current
  features are passed in as a map. The layer pointer of a match is an
  opaque reference, possibly null.
- The 64-bit width of feature ids and the 32-bit width of vertex indices
  and counts; they are unbounded integers here.
- The `layer()` and `extent()` getters and the `Match` getters other than
  `edgePoints`. They read a field and are the datatype's own fields here.
- Locator.PointLocator.Init: callers must pass a cap of -1 or more. The
  header documents only -1 (no cap) and feature counts, so a cap below -1
  is not modelled.
- Locator.PointLocator.RebuildIndex: the same cap of -1 or more is required.
- Locator.PointLocator.RebuildIndex: the cache and registrations are
  collected first and stored once the cap is known to hold. The source
  fills the cache as it goes and destroys it on abort, which leaves the
  same final state; the intermediate states are not modelled.
- Queries.NearestArea: the filter is applied to the edge fallback only,
  because `pointInPolygon` takes no filter. A filter that rejects area
  matches is not modelled.

## Findings

| source | as written | input that shows it | evidently intended | confidence | as-written member | corrected member |
|---|---|---|---|---|---|---|
| src/core/qgspointlocator.h:179-188 | `mEdgePoints == other.mEdgePoints` compares two `QgsPointXY[2]` arrays. In C++ both decay to pointers, so the term holds only when both sides are the same object | a match and a copy of it, e.g. `Match(Vertex, layer, 7, 0.5, pt)` and a copy made by `Match m2 = m1;`: every field agrees, yet `m1 == m2` is false | compare the two edge points element by element, as the other six fields are compared | high; not executed | Matches.CopiesCompareUnequalAsWritten | Matches.EqualsIsValueEquality |
