/**
  The point locator of one vector layer: a cache of feature geometries, a
  spatial tree registering each cached feature's box, the flag that records
  a layer with nothing to index, and an optional extent restricting what is
  indexed. The layer itself is outside the model: its current features are
  passed in, as a map from feature id to geometry, wherever the locator
  reads them.
 */
module Locator {
  import opened Options
  import opened Geometry
  import opened Matches
  import Queries

  /** One registration in the spatial tree: a feature id and its box. */
  datatype Entry = Entry(fid: FeatureId, box: Rect)

  /** The features of the layer as it currently is. */
  type Layer = map<FeatureId, Geometry>

  /** A geometry is indexed when it has a box and, with an extent set, that box meets the extent. */
  predicate Indexable(g: Geometry, extent: Option<Rect>) {
    BoundingBox(g).Some? && (extent.None? || extent.value.Intersects(BoundingBox(g).value))
  }

  /** The features a complete index of `source` holds. */
  function IndexedFeatures(source: Layer, extent: Option<Rect>): (r: map<FeatureId, Geometry>)
    ensures forall fid :: fid in r <==> fid in source && Indexable(source[fid], extent)
    ensures forall fid :: fid in r ==> r[fid] == source[fid]
  {
    map fid | fid in source && Indexable(source[fid], extent) :: source[fid]
  }

  /** The tree registrations matching a cache: one entry per cached feature, with its box. */
  function Entries(geoms: map<FeatureId, Geometry>): set<Entry> {
    set fid | fid in geoms && BoundingBox(geoms[fid]).Some? :: Entry(fid, BoundingBox(geoms[fid]).value)
  }

  function TreeIds(entries: set<Entry>): set<FeatureId> {
    set e | e in entries :: e.fid
  }

  /** The ids registered in the tree are exactly the cached ids, each with its cached geometry's box. */
  lemma TreeIdsAreCacheKeys(geoms: map<FeatureId, Geometry>)
    requires forall fid :: fid in geoms ==> BoundingBox(geoms[fid]).Some?
    ensures TreeIds(Entries(geoms)) == geoms.Keys
    ensures forall e :: e in Entries(geoms) ==> e.fid in geoms && e.box == BoundingBox(geoms[e.fid]).value
    ensures Entries(geoms) == {} <==> geoms == map[]
  {
    forall fid | fid in geoms
      ensures fid in TreeIds(Entries(geoms))
    {
      assert Entry(fid, BoundingBox(geoms[fid]).value) in Entries(geoms);
    }
    if geoms != map[] {
      var fid :| fid in geoms;
      assert Entry(fid, BoundingBox(geoms[fid]).value) in Entries(geoms);
    }
  }

  lemma EntriesAfterRemove(geoms: map<FeatureId, Geometry>, fid: FeatureId)
    requires fid in geoms && BoundingBox(geoms[fid]).Some?
    ensures Entries(geoms - {fid}) == Entries(geoms) - {Entry(fid, BoundingBox(geoms[fid]).value)}
  {
    var after := geoms - {fid};
    forall e | e in Entries(geoms) - {Entry(fid, BoundingBox(geoms[fid]).value)}
      ensures e in Entries(after)
    {
      assert e.fid in after && after[e.fid] == geoms[e.fid];
    }
  }

  lemma EntriesAfterInsert(geoms: map<FeatureId, Geometry>, fid: FeatureId, g: Geometry)
    requires fid !in geoms && BoundingBox(g).Some?
    ensures Entries(geoms[fid := g]) == Entries(geoms) + {Entry(fid, BoundingBox(g).value)}
  {
    var after := geoms[fid := g];
    assert fid in after && after[fid] == g;
    assert Entry(fid, BoundingBox(after[fid]).value) in Entries(after);
    forall e | e in Entries(geoms)
      ensures e in Entries(after)
    {
      assert after[e.fid] == geoms[e.fid];
    }
  }

  /** Deleting a feature from the layer removes exactly that feature from a complete index. */
  lemma IndexedAfterDelete(source: Layer, extent: Option<Rect>, fid: FeatureId)
    ensures IndexedFeatures(source - {fid}, extent) == IndexedFeatures(source, extent) - {fid}
  {
  }

  /** Setting a feature's geometry replaces it in a complete index, or drops it when it is no longer indexable. */
  lemma IndexedAfterChange(source: Layer, extent: Option<Rect>, fid: FeatureId, g: Geometry)
    ensures IndexedFeatures(source[fid := g], extent) ==
      if Indexable(g, extent) then IndexedFeatures(source, extent)[fid := g]
      else IndexedFeatures(source, extent) - {fid}
  {
  }

  /** Adding a feature of the layer to the rest of it adds it to a complete index when it is indexable. */
  lemma IndexedAfterAdd(source: Layer, extent: Option<Rect>, fid: FeatureId)
    requires fid in source
    ensures IndexedFeatures(source, extent) ==
      if Indexable(source[fid], extent) then IndexedFeatures(source - {fid}, extent)[fid := source[fid]]
      else IndexedFeatures(source - {fid}, extent)
  {
    assert source == (source - {fid})[fid := source[fid]];
    IndexedAfterChange(source - {fid}, extent, fid, source[fid]);
  }

  lemma HasMember(s: set<FeatureId>)
    requires s != {}
    ensures exists fid :: fid in s
  {
    if forall fid :: fid !in s {
      assert false;
    }
  }

  lemma SubsetCardinality(a: set<FeatureId>, b: set<FeatureId>)
    requires a <= b
    ensures |a| <= |b|
  {
    assert b == a + (b - a);
  }

  /** Indexing part of a layer never indexes more features than indexing all of it. */
  lemma IndexedCountMonotone(part: Layer, source: Layer, extent: Option<Rect>)
    requires part.Keys <= source.Keys
    requires forall fid :: fid in part ==> part[fid] == source[fid]
    ensures |IndexedFeatures(part, extent)| <= |IndexedFeatures(source, extent)|
  {
    var small := IndexedFeatures(part, extent);
    var large := IndexedFeatures(source, extent);
    assert small.Keys <= large.Keys by {
      forall fid | fid in small.Keys
        ensures fid in large.Keys
      {
        assert part[fid] == source[fid];
      }
    }
    SubsetCardinality(small.Keys, large.Keys);
  }

  /** One step of a build: taking feature `fid` into the processed part of the layer. */
  lemma IndexedAfterStep(source: Layer, remaining: set<FeatureId>, extent: Option<Rect>, fid: FeatureId)
    requires fid in remaining && remaining <= source.Keys
    ensures fid !in IndexedFeatures(source - remaining, extent)
    ensures IndexedFeatures(source - (remaining - {fid}), extent) ==
      if Indexable(source[fid], extent) then IndexedFeatures(source - remaining, extent)[fid := source[fid]]
      else IndexedFeatures(source - remaining, extent)
  {
    var before := source - remaining;
    assert source - (remaining - {fid}) == before[fid := source[fid]];
    IndexedAfterChange(before, extent, fid, source[fid]);
  }

  lemma IndexedNothingYet(source: Layer, extent: Option<Rect>)
    ensures IndexedFeatures(source - source.Keys, extent) == map[]
  {
    assert source - source.Keys == map[];
  }

  /** A build that has processed every feature holds a complete index, every entry of it indexable. */
  lemma BuildComplete(source: Layer, extent: Option<Rect>, cache: map<FeatureId, Geometry>)
    requires cache == IndexedFeatures(source - {}, extent)
    ensures cache == IndexedFeatures(source, extent)
    ensures forall fid :: fid in cache ==> Indexable(cache[fid], extent)
    ensures Entries(cache) == {} <==> cache == map[]
  {
    assert source - {} == source;
    TreeIdsAreCacheKeys(cache);
  }

  /** The effect of one step of a build on the cache, its registrations and its size. */
  lemma BuildStep(source: Layer, remaining: set<FeatureId>, extent: Option<Rect>,
                  cache: map<FeatureId, Geometry>, fid: FeatureId)
    requires fid in remaining && remaining <= source.Keys
    requires cache == IndexedFeatures(source - remaining, extent)
    ensures var g := source[fid];
      if Indexable(g, extent) then
        && IndexedFeatures(source - (remaining - {fid}), extent) == cache[fid := g]
        && Entries(cache[fid := g]) == Entries(cache) + {Entry(fid, BoundingBox(g).value)}
        && |cache[fid := g]| == |cache| + 1
      else
        IndexedFeatures(source - (remaining - {fid}), extent) == cache
  {
    IndexedAfterStep(source, remaining, extent, fid);
    if Indexable(source[fid], extent) {
      EntriesAfterInsert(cache, fid, source[fid]);
    }
  }

  /** Whether building an index of `source` stays within the cap (-1: no cap). */
  predicate WithinCap(source: Layer, extent: Option<Rect>, maxFeaturesToIndex: int) {
    maxFeaturesToIndex == -1 || |IndexedFeatures(source, extent)| <= maxFeaturesToIndex
  }

  /** A build that has already indexed more than the cap from part of the layer is over the cap for all of it. */
  lemma CapExceeded(source: Layer, remaining: set<FeatureId>, extent: Option<Rect>, maxFeaturesToIndex: int)
    requires remaining <= source.Keys && maxFeaturesToIndex >= 0
    requires |IndexedFeatures(source - remaining, extent)| > maxFeaturesToIndex
    ensures !WithinCap(source, extent, maxFeaturesToIndex)
  {
    IndexedCountMonotone(source - remaining, source, extent);
  }

  /**
    The feature loop of a rebuild: visit the features of `source`, cache
    each indexable one with its tree registration and count it, and stop
    with `ok` false as soon as the count exceeds the cap (-1: no cap).
   */
  method CollectIndexable(source: Layer, extent: Option<Rect>, maxFeaturesToIndex: int)
    returns (cache: map<FeatureId, Geometry>, entries: set<Entry>, ok: bool)
    requires maxFeaturesToIndex >= -1
    ensures ok <==> WithinCap(source, extent, maxFeaturesToIndex)
    ensures ok ==> cache == IndexedFeatures(source, extent) && entries == Entries(cache)
    ensures ok ==> (forall fid :: fid in cache ==> Indexable(cache[fid], extent))
    ensures ok ==> (entries == {} <==> cache == map[])
  {
    var remaining := source.Keys;
    cache, entries := map[], {};
    var indexedCount := 0;
    IndexedNothingYet(source, extent);
    while remaining != {}
      invariant remaining <= source.Keys
      invariant cache == IndexedFeatures(source - remaining, extent)
      invariant entries == Entries(cache)
      invariant indexedCount == |cache|
      invariant maxFeaturesToIndex == -1 || indexedCount <= maxFeaturesToIndex
      decreases remaining
    {
      HasMember(remaining);
      var fid :| fid in remaining;
      BuildStep(source, remaining, extent, cache, fid);
      remaining := remaining - {fid};
      var g := source[fid];
      if Indexable(g, extent) {
        entries := entries + {Entry(fid, BoundingBox(g).value)};
        cache := cache[fid := g];
        indexedCount := indexedCount + 1;
      }
      if maxFeaturesToIndex != -1 && indexedCount > maxFeaturesToIndex {
        CapExceeded(source, remaining, extent, maxFeaturesToIndex);
        return cache, entries, false;
      }
    }
    BuildComplete(source, extent, cache);
    ok := true;
  }

  /** `order` visits every id of `ids` once and nothing else. */
  ghost predicate IsTraversalOf(order: seq<FeatureId>, ids: set<FeatureId>) {
    && Queries.NoRepeats(order)
    && (forall fid :: fid in order <==> fid in ids)
  }

  class PointLocator {
    /** The layer the locator works on. */
    const layer: LayerRef
    /** When set, only features whose box meets it are indexed. */
    var extent: Option<Rect>
    /** The geometry cache: feature id to its geometry. */
    var geoms: map<FeatureId, Geometry>
    /** The spatial tree, absent until built. */
    var rtree: Option<set<Entry>>
    /** The layer had nothing to index: there is no tree, yet no rebuild is needed. */
    var isEmptyLayer: bool

    /** The cache and the tree agree, and everything cached is indexable under the current extent. */
    ghost predicate Valid()
      reads this
    {
      && (forall fid :: fid in geoms ==> Indexable(geoms[fid], extent))
      && (rtree.None? ==> geoms == map[])
      && (rtree.Some? ==> rtree.value == Entries(geoms))
      && (isEmptyLayer ==> rtree.None?)
    }

    /** The state a complete build of `source` leaves. */
    ghost predicate BuiltFrom(source: Layer)
      reads this
    {
      && geoms == IndexedFeatures(source, extent)
      && rtree == (if geoms == map[] then None else Some(Entries(geoms)))
      && isEmptyLayer == (geoms == map[])
    }

    /** No index: nothing cached, no tree, and a rebuild is needed. */
    ghost predicate Unindexed()
      reads this
    {
      geoms == map[] && rtree == None && !isEmptyLayer
    }

    constructor (layer: LayerRef, extent: Option<Rect>)
      ensures Valid() && Unindexed()
      ensures this.layer == layer && this.extent == extent
    {
      this.layer := layer;
      this.extent := extent;
      geoms := map[];
      rtree := None;
      isEmptyLayer := false;
    }

    /** hasIndex: the data have been indexed, into a tree or found to hold nothing. */
    function HasIndex(): (b: bool)
      reads this
      requires Valid()
      ensures b <==> !Unindexed()
    {
      rtree.Some? || isEmptyLayer
    }

    /** cachedGeometryCount: the size of the geometry cache, which is also the number of ids in the tree. */
    function CachedGeometryCount(): (n: int)
      reads this
      requires Valid()
      ensures n == |geoms|
      ensures rtree.Some? ==> n == |TreeIds(rtree.value)|
      ensures !HasIndex() ==> n == 0
    {
      if rtree.Some? then
        TreeIdsAreCacheKeys(geoms);
        |geoms|
      else |geoms|
    }

    /** destroyIndex: drop the tree and the cache, and forget that the layer was empty. */
    method DestroyIndex()
      modifies this
      ensures Valid() && Unindexed()
      ensures extent == old(extent)
    {
      rtree := None;
      isEmptyLayer := false;
      geoms := map[];
    }

    /** setExtent: index only what meets `e` (everything when None) from the next build on. */
    method SetExtent(e: Option<Rect>)
      modifies this
      ensures Valid() && Unindexed()
      ensures extent == e
    {
      extent := e;
      DestroyIndex();
    }

    /**
      rebuildIndex: start from a destroyed index, collect every indexable
      feature of `source` and store the cache and the tree; when the cap
      stops the collection, the destroyed index is all that remains.
     */
    method RebuildIndex(source: Layer, maxFeaturesToIndex: int) returns (ok: bool)
      requires maxFeaturesToIndex >= -1
      modifies this
      ensures Valid() && extent == old(extent)
      ensures ok <==> WithinCap(source, extent, maxFeaturesToIndex)
      ensures ok ==> BuiltFrom(source)
      ensures !ok ==> Unindexed()
    {
      DestroyIndex();
      var cache, entries;
      cache, entries, ok := CollectIndexable(source, extent, maxFeaturesToIndex);
      if !ok {
        return;
      }
      geoms := cache;
      if entries == {} {
        isEmptyLayer := true;
      } else {
        rtree := Some(entries);
      }
    }

    /**
      init: build the index unless it exists, with `maxFeaturesToIndex` as
      the cap (-1: none); false exactly when the cap stopped the build.
     */
    method Init(source: Layer, maxFeaturesToIndex: int) returns (ok: bool)
      requires Valid()
      requires maxFeaturesToIndex >= -1
      modifies this
      ensures Valid() && extent == old(extent)
      ensures old(HasIndex()) ==> ok && unchanged(this)
      ensures !old(HasIndex()) ==> (ok <==> WithinCap(source, extent, maxFeaturesToIndex))
      ensures !old(HasIndex()) && ok ==> BuiltFrom(source)
      ensures maxFeaturesToIndex == -1 ==> ok
      ensures ok ==> HasIndex()
      ensures !ok ==> Unindexed() && CachedGeometryCount() == 0
    {
      if HasIndex() {
        return true;
      }
      ok := RebuildIndex(source, maxFeaturesToIndex);
    }

    /**
      onFeatureAdded: a layer recorded as empty is rebuilt from scratch; a
      built index caches and registers the new feature if it is indexable;
      without an index nothing happens.
     */
    method OnFeatureAdded(source: Layer, fid: FeatureId)
      requires Valid()
      modifies this
      ensures Valid() && extent == old(extent)
      ensures old(isEmptyLayer) ==> BuiltFrom(source)
      ensures !old(isEmptyLayer) && old(rtree).None? ==> unchanged(this)
      ensures old(rtree).Some? ==> rtree.Some? && !isEmptyLayer
      ensures old(rtree).Some? ==>
        geoms == if fid in source && Indexable(source[fid], extent) then old(geoms)[fid := source[fid]] else old(geoms)
      ensures old(rtree).Some? && fid in source && old(geoms) == IndexedFeatures(source - {fid}, extent) ==>
        geoms == IndexedFeatures(source, extent)
    {
      if isEmptyLayer {
        var rebuilt := RebuildIndex(source, -1);
        return;
      }
      if rtree.None? {
        return;
      }
      if fid in source && Indexable(source[fid], extent) {
        var g := source[fid];
        var entries := rtree.value;
        var rest := geoms;
        if fid in geoms {
          EntriesAfterRemove(geoms, fid);
          entries := entries - {Entry(fid, BoundingBox(geoms[fid]).value)};
          rest := geoms - {fid};
        }
        EntriesAfterInsert(rest, fid, g);
        assert rest[fid := g] == geoms[fid := g];
        rtree := Some(entries + {Entry(fid, BoundingBox(g).value)});
        geoms := geoms[fid := g];
      }
      if fid in source {
        IndexedAfterAdd(source, extent, fid);
      }
    }

    /** onFeatureDeleted: a built index drops the feature from the cache and the tree; otherwise nothing happens. */
    method OnFeatureDeleted(fid: FeatureId)
      requires Valid()
      modifies this
      ensures Valid() && extent == old(extent) && isEmptyLayer == old(isEmptyLayer)
      ensures old(rtree).None? ==> unchanged(this)
      ensures geoms == old(geoms) - {fid}
      ensures rtree == if old(rtree).Some? then Some(Entries(geoms)) else None
    {
      if rtree.None? {
        assert geoms - {fid} == geoms;
        return;
      }
      if fid in geoms {
        EntriesAfterRemove(geoms, fid);
        rtree := Some(rtree.value - {Entry(fid, BoundingBox(geoms[fid]).value)});
        geoms := geoms - {fid};
      }
    }

    /** onGeometryChanged: the feature is dropped, then added again with its new geometry. */
    method OnGeometryChanged(source: Layer, fid: FeatureId, geom: Geometry)
      requires Valid()
      modifies this
      ensures Valid() && extent == old(extent)
      ensures old(isEmptyLayer) ==> BuiltFrom(source[fid := geom])
      ensures !old(isEmptyLayer) && old(rtree).None? ==> unchanged(this)
      ensures old(rtree).Some? ==> rtree == Some(Entries(geoms)) && !isEmptyLayer
      ensures old(rtree).Some? ==>
        geoms == if Indexable(geom, extent) then old(geoms)[fid := geom] else old(geoms) - {fid}
      ensures old(rtree).Some? && old(geoms) == IndexedFeatures(source, extent) ==>
        geoms == IndexedFeatures(source[fid := geom], extent)
    {
      ghost var before := geoms;
      OnFeatureDeleted(fid);
      var changed := source[fid := geom];
      assert changed - {fid} == source - {fid};
      assert (before - {fid})[fid := geom] == before[fid := geom];
      IndexedAfterDelete(source, extent, fid);
      OnFeatureAdded(changed, fid);
      IndexedAfterChange(source, extent, fid, geom);
    }

    /** A traversal of the spatial tree: each registered id once, in the tree's own order. */
    method TraversalOrder() returns (order: seq<FeatureId>)
      requires Valid()
      ensures IsTraversalOf(order, geoms.Keys)
    {
      TreeIdsAreCacheKeys(geoms);
      var remaining := if rtree.Some? then TreeIds(rtree.value) else {};
      assert remaining == geoms.Keys;
      order := [];
      while remaining != {}
        invariant remaining <= geoms.Keys
        invariant forall i, j :: 0 <= i < j < |order| ==> order[i] != order[j]
        invariant forall fid :: fid in order <==> fid in geoms.Keys - remaining
        decreases remaining
      {
        HasMember(remaining);
        var fid :| fid in remaining;
        assert fid !in order;
        order := order + [fid];
        remaining := remaining - {fid};
      }
    }

    /**
      What every query does first: build an index that does not exist yet,
      with no cap, then traverse the tree.
     */
    method Prepare(source: Layer) returns (view: Queries.IndexView)
      requires Valid()
      modifies this
      ensures Valid() && extent == old(extent) && HasIndex()
      ensures old(HasIndex()) ==> unchanged(this)
      ensures !old(HasIndex()) ==> BuiltFrom(source)
      ensures view.layer == layer && view.geoms == geoms && IsTraversalOf(view.order, geoms.Keys)
    {
      var ok := Init(source, -1);
      var order := TraversalOrder();
      view := Queries.IndexView(layer, order, geoms);
    }

    /** nearestVertex, answered from the index of `source` over some traversal of the tree. */
    method NearestVertex(source: Layer, p: Point, tolerance: real, filter: MatchFilter, prims: Queries.Primitives)
      returns (m: Match)
      requires Valid()
      modifies this
      ensures Valid() && extent == old(extent) && HasIndex()
      ensures old(HasIndex()) ==> unchanged(this)
      ensures !old(HasIndex()) ==> BuiltFrom(source)
      ensures exists view :: Traverses(view) && m == Queries.NearestVertex(view, p, tolerance, filter, prims)
    {
      var view := Prepare(source);
      m := Queries.NearestVertex(view, p, tolerance, filter, prims);
    }

    /** nearestEdge, answered from the index of `source` over some traversal of the tree. */
    method NearestEdge(source: Layer, p: Point, tolerance: real, filter: MatchFilter, prims: Queries.Primitives)
      returns (m: Match)
      requires Valid()
      modifies this
      ensures Valid() && extent == old(extent) && HasIndex()
      ensures old(HasIndex()) ==> unchanged(this)
      ensures !old(HasIndex()) ==> BuiltFrom(source)
      ensures exists view :: Traverses(view) && m == Queries.NearestEdge(view, p, tolerance, filter, prims)
    {
      var view := Prepare(source);
      m := Queries.NearestEdge(view, p, tolerance, filter, prims);
    }

    /** nearestArea, answered from the index of `source` over some traversal of the tree. */
    method NearestArea(source: Layer, p: Point, tolerance: real, filter: MatchFilter, prims: Queries.Primitives)
      returns (m: Match)
      requires Valid()
      modifies this
      ensures Valid() && extent == old(extent) && HasIndex()
      ensures old(HasIndex()) ==> unchanged(this)
      ensures !old(HasIndex()) ==> BuiltFrom(source)
      ensures exists view :: Traverses(view) && m == Queries.NearestArea(view, p, tolerance, filter, prims)
    {
      var view := Prepare(source);
      m := Queries.NearestArea(view, p, tolerance, filter, prims);
    }

    /** edgesInRect, answered from the index of `source` over some traversal of the tree. */
    method EdgesInRect(source: Layer, rect: Rect, filter: MatchFilter, prims: Queries.Primitives)
      returns (ms: seq<Match>)
      requires Valid()
      modifies this
      ensures Valid() && extent == old(extent) && HasIndex()
      ensures old(HasIndex()) ==> unchanged(this)
      ensures !old(HasIndex()) ==> BuiltFrom(source)
      ensures exists view :: Traverses(view) && ms == Queries.EdgesInRect(view, rect, filter, prims)
      ensures forall i, j :: 0 <= i < j < |ms| ==> ms[i].featureId != ms[j].featureId || ms[i].vertexIndex != ms[j].vertexIndex
    {
      var view := Prepare(source);
      ms := Queries.EdgesInRect(view, rect, filter, prims);
      Queries.EdgesInRectReportsEachEdgeOnce(view, rect, filter, prims);
    }

    /** The overload of edgesInRect over the square of half-side `tolerance` around `p`. */
    method EdgesInRectAround(source: Layer, p: Point, tolerance: real, filter: MatchFilter, prims: Queries.Primitives)
      returns (ms: seq<Match>)
      requires Valid()
      modifies this
      ensures Valid() && extent == old(extent) && HasIndex()
      ensures old(HasIndex()) ==> unchanged(this)
      ensures !old(HasIndex()) ==> BuiltFrom(source)
      ensures exists view :: Traverses(view) && ms == Queries.EdgesInRect(view, RectAround(p, tolerance), filter, prims)
      ensures forall i, j :: 0 <= i < j < |ms| ==> ms[i].featureId != ms[j].featureId || ms[i].vertexIndex != ms[j].vertexIndex
    {
      ms := EdgesInRect(source, RectAround(p, tolerance), filter, prims);
    }

    /** pointInPolygon, answered from the index of `source` over some traversal of the tree. */
    method PointInPolygon(source: Layer, p: Point, prims: Queries.Primitives) returns (ms: seq<Match>)
      requires Valid()
      modifies this
      ensures Valid() && extent == old(extent) && HasIndex()
      ensures old(HasIndex()) ==> unchanged(this)
      ensures !old(HasIndex()) ==> BuiltFrom(source)
      ensures exists view :: Traverses(view) && ms == Queries.PointInPolygon(view, p, prims)
      ensures forall i, j :: 0 <= i < j < |ms| ==> ms[i].featureId != ms[j].featureId
    {
      var view := Prepare(source);
      ms := Queries.PointInPolygon(view, p, prims);
      Queries.PointInPolygonReportsEachPolygonOnce(view, p, prims);
    }

    /** `view` is this locator's layer and cache, seen through one traversal of its tree. */
    ghost predicate Traverses(view: Queries.IndexView)
      reads this
    {
      view.layer == layer && view.geoms == geoms && IsTraversalOf(view.order, geoms.Keys)
    }
  }

  /**
    Calling init a second time with the same layer changes nothing and
    returns what the first call returned, whether or not the cap stopped it.
   */
  method InitTwice(loc: PointLocator, source: Layer, maxFeaturesToIndex: int) returns (first: bool, second: bool)
    requires loc.Valid() && maxFeaturesToIndex >= -1
    modifies loc
    ensures first == second
    ensures loc.Valid() && loc.extent == old(loc.extent) && (second ==> loc.HasIndex())
    ensures old(loc.HasIndex()) ==> first && unchanged(loc)
    ensures !old(loc.HasIndex()) && first ==> loc.BuiltFrom(source)
    ensures !first ==> loc.Unindexed()
  {
    first := loc.Init(source, maxFeaturesToIndex);
    ghost var geoms, rtree, isEmptyLayer := loc.geoms, loc.rtree, loc.isEmptyLayer;
    second := loc.Init(source, maxFeaturesToIndex);
    assert loc.geoms == geoms && loc.rtree == rtree && loc.isEmptyLayer == isEmptyLayer;
  }

  /**
    After a feature is deleted from the layer, no query snaps to it: the
    nearest vertex found afterwards belongs to another feature.
   */
  method NoSnapToDeletedFeature(loc: PointLocator, source: Layer, fid: FeatureId, p: Point, tolerance: real,
                                filter: MatchFilter, prims: Queries.Primitives) returns (m: Match)
    requires loc.Valid()
    modifies loc
    ensures m.IsValid() ==> m.featureId != fid
    ensures loc.Valid()
  {
    loc.OnFeatureDeleted(fid);
    assert fid !in loc.geoms;
    m := loc.NearestVertex(source - {fid}, p, tolerance, filter, prims);
    assert fid !in loc.geoms;
    ghost var view :| loc.Traverses(view) && m == Queries.NearestVertex(view, p, tolerance, filter, prims);
    Queries.NearestVertexIsClosest(view, p, tolerance, filter, prims);
  }
}
