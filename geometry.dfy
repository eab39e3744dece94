/** The geometry vocabulary of the system: coordinates, regions as point sets, the few geometry
    types the code dispatches on, envelopes (bounding rectangles), and the geometry library the
    code calls into, kept opaque as a record of functions. */
module Geometry {

  /** A JTS Coordinate (x, y); real numbers stand for doubles. */
  datatype Coord = Coord(x: real, y: real)

  /** A region is the set of points it covers, so union, difference and intersection are the
      set operations `+`, `-` and `*`. */
  type Region = iset<Coord>

  /** The geometry types the code tells apart: `insertSearchedBuffer(Geometry)` handles a
      Polygon and a MultiPolygon and ignores everything else (collections, lines, points). */
  datatype GeometryType = Polygon | MultiPolygon | Other

  /** A JTS Geometry: its runtime type and the points it covers. */
  datatype Geometry = Geometry(kind: GeometryType, points: Region)

  /** `geoFactory.createGeometryCollection()`: the empty geometry collection. */
  const EmptyCollection: Geometry := Geometry(Other, iset{})

  /** The union of a sequence of regions (SpatiaLite's aggregate ST_Union). */
  function UnionOf(rs: seq<Region>): Region
  {
    if rs == [] then iset{} else rs[0] + UnionOf(rs[1..])
  }

  /** A point lies in the union exactly when it lies in one of the regions. */
  lemma {:induction false} InUnionOf(rs: seq<Region>, p: Coord)
    ensures p in UnionOf(rs) <==> exists k :: 0 <= k < |rs| && p in rs[k]
  {
    if rs != [] {
      InUnionOf(rs[1..], p);
      if p in UnionOf(rs[1..]) {
        var k :| 0 <= k < |rs[1..]| && p in rs[1..][k];
        assert p in rs[k + 1];
      }
      if exists k :: 1 <= k < |rs| && p in rs[k] {
        var k :| 1 <= k < |rs| && p in rs[k];
        assert p in rs[1..][k - 1];
      }
    }
  }

  /** The regions of a sequence of geometries, in order. */
  function PointsOf(gs: seq<Geometry>): (rs: seq<Region>)
    ensures |rs| == |gs| && forall i | 0 <= i < |gs| :: rs[i] == gs[i].points
  {
    if gs == [] then [] else [gs[0].points] + PointsOf(gs[1..])
  }

  /** Appending a region to the table grows the union by exactly that region. */
  lemma {:induction false} UnionOfAppend(rs: seq<Region>, r: Region)
    ensures UnionOf(rs + [r]) == UnionOf(rs) + r
  {
    if rs != [] {
      assert (rs + [r])[1..] == rs[1..] + [r];
      UnionOfAppend(rs[1..], r);
    } else {
      assert (rs + [r])[1..] == [];
    }
  }

  /** A JTS Envelope. The null envelope of an empty geometry has maxX < minX (JTS stores it as
      minX = 0, maxX = -1, minY = 0, maxY = -1), so it contains no point. */
  datatype Envelope = Envelope(minX: real, maxX: real, minY: real, maxY: real)

  const NullEnvelope: Envelope := Envelope(0.0, -1.0, 0.0, -1.0)

  /** `Envelope.contains(x, y)`: the closed rectangle test. */
  predicate EnvelopeContains(e: Envelope, x: real, y: real)
  {
    e.minX <= x <= e.maxX && e.minY <= y <= e.maxY
  }

  /** Two closed rectangles share a point (a spatial-index hit). */
  predicate EnvelopesOverlap(a: Envelope, b: Envelope)
  {
    a.minX <= a.maxX && a.minY <= a.maxY && b.minX <= b.maxX && b.minY <= b.maxY &&
    a.minX <= b.maxX && b.minX <= a.maxX && a.minY <= b.maxY && b.minY <= a.maxY
  }

  /** JTS's default number of segments per quarter circle of a buffer. */
  const DefaultQuadrantSegments: int := 8

  /** A strictly positive real (the library's `Math.sqrt(3)`). */
  type PositiveReal = r: real | r > 0.0 witness 1.0

  /** The geometry library (JTS, and SpatiaLite's SQL functions), kept opaque. */
  datatype Kernel = Kernel(
    circle: (Coord, real, int) -> Region,              // Point.buffer(distance, quadrantSegments)
    buffer: (Geometry, real) -> Geometry,              // Geometry.buffer(distance)
    envelope: Region -> Envelope,                      // Geometry.getEnvelopeInternal()
    intersects: (Region, Region) -> bool,              // Geometry.intersects
    contains: (Region, Coord) -> bool,                 // Geometry.contains(Point) / CONTAINS(...)
    isValid: Geometry -> bool,                         // Geometry.isValid()
    isEmpty: Region -> bool,                           // Geometry.isEmpty()
    simplify: Geometry -> Geometry,                    // VWSimplifier, tolerance 1, ensureValid
    overlayType: Region -> GeometryType,               // type of an overlay (union, difference) result
    area: Region -> real,                              // Geometry.getArea()
    concaveHull: (set<seq<Coord>>, int) -> Geometry,   // ConcaveHull(lines, threshold)
    transform: (Geometry, Coord -> Coord) -> Geometry, // GeometryTransformer walking every coordinate sequence
    sqrt3: PositiveReal)                               // Math.sqrt(3)

  /** The facts about the library that the proofs rely on. */
  ghost predicate Sound(k: Kernel)
  {
    && k.sqrt3 * k.sqrt3 == 3.0
    // a disc of positive radius contains its centre
    && (forall c, r, q :: r > 0.0 ==> k.contains(k.circle(c, r, q), c))
    // `contains` and `intersects` never report points that are not there
    && (forall a: Region, p: Coord :: k.contains(a, p) ==> p in a)
    && (forall a, b :: k.intersects(a, b) ==> a * b != iset{})
    && (forall a :: k.isEmpty(a) <==> a == iset{})
    // the envelope covers the geometry
    && (forall a: Region, p: Coord :: p in a ==> EnvelopeContains(k.envelope(a), p.x, p.y))
    // a smaller region has no larger area
    && (forall a, b :: a <= b ==> k.area(a) <= k.area(b))
  }

  /** `a.difference(b)` in JTS: an empty `a` gives an empty result, an empty `b` gives a copy of
      `a`, and otherwise the overlay of the points of `a` outside `b`. */
  function Difference(k: Kernel, a: Geometry, b: Region): Geometry
  {
    if k.isEmpty(a.points) then Geometry(k.overlayType(iset{}), iset{})
    else if k.isEmpty(b) then a
    else
      var pts := a.points - b;
      Geometry(k.overlayType(pts), pts)
  }

  /** With a sound library the difference covers exactly the points of `a` outside `b`. */
  lemma DifferencePoints(k: Kernel, a: Geometry, b: Region)
    ensures Sound(k) ==> Difference(k, a, b).points == a.points - b
    ensures Sound(k) ==> Difference(k, a, b).points <= a.points
  {
  }

  /** The spatial-index pre-filter: the bounding rectangles meet. */
  predicate IndexHit(k: Kernel, region: Region, frame: Region)
  {
    EnvelopesOverlap(k.envelope(region), k.envelope(frame))
  }

  /** The pre-filter never drops a region that shares a point with the frame. */
  lemma IndexHitComplete(k: Kernel, region: Region, frame: Region, p: Coord)
    requires Sound(k)
    requires p in region && p in frame
    ensures IndexHit(k, region, frame)
  {
  }
}
