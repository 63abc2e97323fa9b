/**
  The result of a point-locator query (QgsPointLocator::Match), the flag
  values of its kind (QgsPointLocator::Type) and the filter a caller can
  pass to reject candidate matches.
 */
module Matches {
  import opened Options
  import opened Geometry

  /** A feature identifier (QgsFeatureId). */
  type FeatureId = int

  /**
    What a match snapped to, or what a request asks for: `All` is an
    enumerator of its own, the combination of the three kinds.
   */
  datatype MatchType = Invalid | Vertex | Edge | Area | All

  /** The three kinds a match can snap to, each a single flag. */
  predicate IsSingleKind(t: MatchType) {
    t == Vertex || t == Edge || t == Area
  }

  /** A set of match kinds (QgsPointLocator::Types), as the bits of its flags. */
  type Types = bv8

  /** The flag value of each kind. */
  function Flag(t: MatchType): Types {
    match t
    case Invalid => 0
    case Vertex => 1
    case Edge => 2
    case Area => 4
    case All => 7
  }

  /** The combination of vertex, edge and area. */
  const AllTypes: Types := Flag(Vertex) | Flag(Edge) | Flag(Area)

  /** Whether the set `types` holds the kind `t` (QFlags::testFlag for a non-zero flag). */
  predicate TestFlag(types: Types, t: MatchType) {
    t != Invalid && types & Flag(t) == Flag(t)
  }

  /** The kind whose flag is exactly `f`, if there is one. */
  function TypeOfFlag(f: Types): Option<MatchType> {
    if f == 0 then Some(Invalid)
    else if f == 1 then Some(Vertex)
    else if f == 2 then Some(Edge)
    else if f == 4 then Some(Area)
    else if f == 7 then Some(All)
    else None
  }

  /**
    The three kinds are distinct single bits, `Invalid` is no bit, and `All`
    is the union of the three, 7.
   */
  lemma FlagsAreSingleBits()
    ensures Flag(Invalid) == 0
    ensures forall t :: IsSingleKind(t) ==> Flag(t) != 0 && Flag(t) & (Flag(t) - 1) == 0
    ensures forall s, t :: IsSingleKind(s) && IsSingleKind(t) && s != t ==> Flag(s) & Flag(t) == 0
    ensures Flag(All) == AllTypes == 7
  {
  }

  /** Flags and kinds are in one-to-one correspondence. */
  lemma FlagRoundTrip(t: MatchType)
    ensures TypeOfFlag(Flag(t)) == Some(t)
  {
  }

  /** `All` holds every kind, itself included, and not `Invalid`. */
  lemma AllHoldsEveryKind(t: MatchType)
    ensures TestFlag(AllTypes, t) <==> t != Invalid
  {
  }

  /** The layer a match came from: an opaque reference, possibly null. */
  datatype LayerRef = NullLayer | LayerRef(id: nat)

  /**
    One query result. `vertexIndex` numbers the matched vertex, or the first
    vertex of the matched edge; `edgePoints` are the ends of a matched edge.
   */
  datatype Match = Match(
    kind: MatchType,
    distance: real,
    point: Point,
    layer: LayerRef,
    featureId: FeatureId,
    vertexIndex: int,
    edgePoints: (Point, Point))
  {
    predicate IsValid() { kind != Invalid }
    predicate HasVertex() { kind == Vertex }
    predicate HasEdge() { kind == Edge }
    predicate HasArea() { kind == Area }

    /** The two ends of the matched edge, first end first. */
    function EdgePoints(): (Point, Point) {
      (edgePoints.0, edgePoints.1)
    }

    /**
      Field-by-field equality, each end of the edge compared by value. This
      is the comparison the match's operator== is meant to perform; see
      EqualsAsWritten for the one it performs.
     */
    predicate Equals(other: Match) {
      && kind == other.kind
      && distance == other.distance
      && point == other.point
      && layer == other.layer
      && featureId == other.featureId
      && vertexIndex == other.vertexIndex
      && edgePoints.0 == other.edgePoints.0
      && edgePoints.1 == other.edgePoints.1
    }
  }

  /** The value of a default-constructed match. */
  const InvalidMatch: Match := Match(Invalid, 0.0, Origin, NullLayer, 0, 0, (Origin, Origin))

  /** A default-constructed match is invalid and matches no kind. */
  lemma DefaultMatchIsInvalid()
    ensures InvalidMatch.kind == Invalid
    ensures !InvalidMatch.IsValid()
    ensures !InvalidMatch.HasVertex() && !InvalidMatch.HasEdge() && !InvalidMatch.HasArea()
  {
  }

  /**
    A match is valid exactly when its kind is not `Invalid`; it has at most
    one of vertex, edge and area, and exactly one when its kind is a single
    flag. A match of kind `All` is valid yet has none of the three.
   */
  lemma ValidityAndKinds(m: Match)
    ensures m.IsValid() <==> m.kind != Invalid
    ensures m.HasVertex() ==> !m.HasEdge() && !m.HasArea()
    ensures m.HasEdge() ==> !m.HasVertex() && !m.HasArea()
    ensures m.HasArea() ==> !m.HasVertex() && !m.HasEdge()
    ensures IsSingleKind(m.kind) <==> m.HasVertex() || m.HasEdge() || m.HasArea()
    ensures m.kind == All ==> m.IsValid() && !m.HasVertex() && !m.HasEdge() && !m.HasArea()
  {
  }

  /**
    The full constructor: every argument lands in its field unchanged, and
    the edge ends are copied, in order, only when they are supplied.
   */
  function MakeMatch(t: MatchType, layer: LayerRef, fid: FeatureId, dist: real, pt: Point,
                     vertexIndex: int := 0, edgePoints: Option<(Point, Point)> := None): (m: Match)
    ensures m.kind == t && m.distance == dist && m.point == pt
    ensures m.layer == layer && m.featureId == fid && m.vertexIndex == vertexIndex
    ensures edgePoints.Some? ==> m.EdgePoints() == edgePoints.value
    ensures edgePoints.None? ==> m.EdgePoints() == InvalidMatch.EdgePoints()
    ensures m.IsValid() <==> t != Invalid
  {
    Match(t, dist, pt, layer, fid, vertexIndex,
          if edgePoints.Some? then edgePoints.value else (Origin, Origin))
  }

  /** The by-value comparison is equality of matches, so it is reflexive, symmetric and transitive. */
  lemma EqualsIsValueEquality(a: Match, b: Match)
    ensures a.Equals(b) <==> a == b
    ensures a.Equals(a)
    ensures a.Equals(b) ==> b.Equals(a)
  {
  }

  lemma EqualsIsTransitive(a: Match, b: Match, c: Match)
    requires a.Equals(b) && b.Equals(c)
    ensures a.Equals(c)
  {
  }

  /**
    A match object in memory: its value and the address of its storage.
    Two live objects have different addresses.
   */
  datatype StoredMatch = StoredMatch(address: nat, value: Match)

  /**
    The comparison as the header writes it: the fixed-size edge-point
    arrays are compared with ==, which in C++ compares the addresses the two
    arrays decay to, so that term holds only when both sides are one object.
   */
  predicate EqualsAsWritten(a: StoredMatch, b: StoredMatch) {
    && a.value.kind == b.value.kind
    && a.value.distance == b.value.distance
    && a.value.point == b.value.point
    && a.value.layer == b.value.layer
    && a.value.featureId == b.value.featureId
    && a.value.vertexIndex == b.value.vertexIndex
    && a.address == b.address
  }

  /**
    A copy of a match compares unequal to the original under the comparison
    as written, although every field agrees; the by-value comparison says equal.
   */
  lemma CopiesCompareUnequalAsWritten()
    ensures var m := MakeMatch(Vertex, LayerRef(1), 7, 0.5, Origin);
      && m.Equals(m)
      && !EqualsAsWritten(StoredMatch(1, m), StoredMatch(2, m))
  {
  }

  /** As written, the comparison reduces to object identity plus the scalar fields. */
  lemma AsWrittenIsIdentity(a: StoredMatch, b: StoredMatch)
    ensures EqualsAsWritten(a, b) ==> a.address == b.address
    ensures a.address == b.address && a.value == b.value ==> EqualsAsWritten(a, b)
    ensures EqualsAsWritten(a, b) && a.value.edgePoints == b.value.edgePoints ==> a.value.Equals(b.value)
  {
  }

  /** A caller's predicate over candidate matches (MatchFilter); None accepts everything. */
  type MatchFilter = Option<Match -> bool>

  predicate Accepts(filter: MatchFilter, m: Match) {
    filter.None? || filter.value(m)
  }
}
