/** The query handler of the server: it answers "is this point in a food desert?", "which
    grocery stores lie in this frame?" and "which part of this frame is a food desert?" by
    combining the food-desert database, the external store source and the road network.

    Searches are coverage driven: the database remembers which areas have already been
    searched, only the parts of a request outside them cause external queries, and those parts
    are then recorded as searched. Points and frames arrive in the store source's coordinate
    system and are projected to the database's and back by two opaque maps. */
module QueryHandler {
  import opened Wrappers
  import opened Geometry
  import opened GroceryStores
  import opened StoreTable
  import opened FoodDesertDb
  import opened Network
  import opened StoreSource
  import opened HexTiling

  /** `getBufferRadiusMeters`: one mile in metres, for every point (the point is ignored). */
  const BufferRadiusMeters: real := 1609.34

  /** The concave-hull threshold of `networkBuffer`. */
  const ConcaveHullThreshold: int := 100

  /** Java's `(int)` cast of a double: truncation toward zero, saturating at the `int` range. */
  function JavaIntCast(d: real): (r: Int32)
    ensures 0.0 <= d ==> 0 <= r && r as real <= d
    ensures 0.0 <= d < Int32Max as real ==> d < r as real + 1.0
    ensures d <= 0.0 ==> r <= 0 && d <= r as real
    ensures Int32Min as real < d <= 0.0 ==> r as real - 1.0 < d
    ensures d >= Int32Max as real ==> r == Int32Max
    ensures d <= Int32Min as real ==> r == Int32Min
  {
    if d >= Int32Max as real then Int32Max
    else if d <= Int32Min as real then Int32Min
    else if d >= 0.0 then d.Floor
    else -((-d).Floor)
  }

  /** The radius is positive, and the store source is asked for its truncation, 1609 metres. */
  lemma QueryRadius()
    ensures BufferRadiusMeters > 0.0
    ensures JavaIntCast(BufferRadiusMeters) == 1609
  {
    assert 1609.0 <= BufferRadiusMeters < 1610.0;
  }

  /** `stream().map(s -> s.transform(f))`: every store transformed, in order. */
  function TransformStores(ss: seq<GroceryStore>, f: Coord -> Coord): (r: seq<GroceryStore>)
    ensures |r| == |ss|
    ensures forall i | 0 <= i < |ss| :: r[i] == Transform(ss[i], f)
  {
    if ss == [] then [] else [Transform(ss[0], f)] + TransformStores(ss[1..], f)
  }

  /** The stores the query at `p` contributes, in database coordinates; a query that throws
      contributes none. */
  function Answered(answer: (Coord, Int32) -> Option<seq<GroceryStore>>, toDb: Coord -> Coord, p: Coord): seq<GroceryStore>
  {
    match answer(p, JavaIntCast(BufferRadiusMeters))
    case None => []
    case Some(ss) => TransformStores(ss, toDb)
  }

  /** `allStores` once the queries at `ps` have been made, in query order. */
  function Gathered(answer: (Coord, Int32) -> Option<seq<GroceryStore>>, toDb: Coord -> Coord, ps: seq<Coord>): seq<GroceryStore>
  {
    if ps == [] then [] else Gathered(answer, toDb, ps[..|ps| - 1]) + Answered(answer, toDb, ps[|ps| - 1])
  }

  /** The query at `p` succeeds and answers a store that projects to `s`. */
  predicate Contributes(answer: (Coord, Int32) -> Option<seq<GroceryStore>>, toDb: Coord -> Coord, p: Coord, s: GroceryStore)
  {
    var a := answer(p, JavaIntCast(BufferRadiusMeters));
    a.Some? && exists t | t in a.value :: s == Transform(t, toDb)
  }

  lemma AnsweredExact(answer: (Coord, Int32) -> Option<seq<GroceryStore>>, toDb: Coord -> Coord, p: Coord, s: GroceryStore)
    ensures s in Answered(answer, toDb, p) <==> Contributes(answer, toDb, p, s)
  {
    var a := answer(p, JavaIntCast(BufferRadiusMeters));
    if a.Some? {
      var r := TransformStores(a.value, toDb);
      if s in r {
        var i :| 0 <= i < |r| && r[i] == s;
        assert a.value[i] in a.value;
      }
      if Contributes(answer, toDb, p, s) {
        var t :| t in a.value && s == Transform(t, toDb);
        var i :| 0 <= i < |a.value| && a.value[i] == t;
        assert r[i] == s;
      }
    }
  }

  /** Every collected store was answered by some query. */
  lemma {:induction false} GatheredSound(answer: (Coord, Int32) -> Option<seq<GroceryStore>>, toDb: Coord -> Coord,
                                         ps: seq<Coord>, s: GroceryStore)
    requires s in Gathered(answer, toDb, ps)
    ensures exists k | 0 <= k < |ps| :: Contributes(answer, toDb, ps[k], s)
  {
    var n := |ps| - 1;
    var init := ps[..n];
    if s in Gathered(answer, toDb, init) {
      GatheredSound(answer, toDb, init, s);
      var k :| 0 <= k < |init| && Contributes(answer, toDb, init[k], s);
      assert init[k] == ps[k];
    } else {
      AnsweredExact(answer, toDb, ps[n], s);
    }
  }

  /** Every store some query answered is collected, whatever the other queries do. */
  lemma {:induction false} GatheredComplete(answer: (Coord, Int32) -> Option<seq<GroceryStore>>, toDb: Coord -> Coord,
                                            ps: seq<Coord>, s: GroceryStore, k: nat)
    requires k < |ps| && Contributes(answer, toDb, ps[k], s)
    ensures s in Gathered(answer, toDb, ps)
  {
    var n := |ps| - 1;
    var init := ps[..n];
    assert Gathered(answer, toDb, ps) == Gathered(answer, toDb, init) + Answered(answer, toDb, ps[n]);
    if k < n {
      assert init[k] == ps[k];
      GatheredComplete(answer, toDb, init, s, k);
    } else {
      AnsweredExact(answer, toDb, ps[n], s);
    }
  }

  /** A store is collected exactly when some query answered it: a failing query adds nothing
      and does not stop the queries after it. */
  lemma GatheredExact(answer: (Coord, Int32) -> Option<seq<GroceryStore>>, toDb: Coord -> Coord,
                      ps: seq<Coord>, s: GroceryStore)
    ensures s in Gathered(answer, toDb, ps) <==> exists k | 0 <= k < |ps| :: Contributes(answer, toDb, ps[k], s)
  {
    if s in Gathered(answer, toDb, ps) {
      GatheredSound(answer, toDb, ps, s);
    }
    if exists k | 0 <= k < |ps| :: Contributes(answer, toDb, ps[k], s) {
      var k :| 0 <= k < |ps| && Contributes(answer, toDb, ps[k], s);
      GatheredComplete(answer, toDb, ps, s, k);
    }
  }

  /** A source whose every query throws (or finds nothing) contributes no store at all. */
  lemma {:induction false} GatheredFromSilentSource(answer: (Coord, Int32) -> Option<seq<GroceryStore>>, toDb: Coord -> Coord,
                                                    ps: seq<Coord>)
    requires forall k | 0 <= k < |ps| :: answer(ps[k], JavaIntCast(BufferRadiusMeters)) in {None, Some([])}
    ensures Gathered(answer, toDb, ps) == []
  {
    if ps != [] {
      var n := |ps| - 1;
      assert forall k | 0 <= k < n :: ps[..n][k] == ps[k];
      GatheredFromSilentSource(answer, toDb, ps[..n]);
    }
  }

  /** The calls `insertAllPlacesQueries(ps)` makes to the store source, in order. */
  function QueriesFor(ps: seq<Coord>): seq<(Coord, Int32)>
  {
    if ps == [] then [] else QueriesFor(ps[..|ps| - 1]) + [(ps[|ps| - 1], JavaIntCast(BufferRadiusMeters))]
  }

  /** One query per centre, in order, each with the truncated radius. */
  lemma {:induction false} QueriesForShape(ps: seq<Coord>)
    ensures |QueriesFor(ps)| == |ps|
    ensures forall k | 0 <= k < |ps| :: QueriesFor(ps)[k] == (ps[k], 1609)
  {
    QueryRadius();
    if ps != [] {
      var n := |ps| - 1;
      QueriesForShape(ps[..n]);
      forall k | 0 <= k < n ensures QueriesFor(ps)[k] == (ps[k], 1609) {
        assert QueriesFor(ps)[k] == QueriesFor(ps[..n])[k];
        assert ps[..n][k] == ps[k];
      }
    }
  }

  /** What `insertSearchedBuffer(Geometry)` appends to the searched-area table. */
  function Recorded(g: Geometry): seq<Region>
  {
    if g.kind != Other then [g.points] else []
  }

  /** Recording the simplified unsearched region leaves no part of the frame unsearched, as
      long as the simplification keeps every unsearched point and is polygonal whenever
      something was unsearched. */
  lemma SearchCoversFrame(k: Kernel, rs: seq<Region>, frame: Geometry, simple: Geometry)
    requires Sound(k)
    requires UnsearchedPart(k, rs, frame).points <= simple.points
    requires simple.kind != Other || UnsearchedPart(k, rs, frame).points == iset{}
    ensures frame.points <= UnionOf(rs + Recorded(simple))
    ensures UnsearchedPart(k, rs + Recorded(simple), frame).points == iset{}
  {
    UnsearchedPartIsDifference(k, rs, frame);
    UnsearchedPartIsDifference(k, rs + Recorded(simple), frame);
    if simple.kind != Other {
      UnionOfAppend(rs, simple.points);
    } else {
      assert rs + Recorded(simple) == rs;
      forall p | p in frame.points ensures p in UnionOf(rs) {
        assert p !in frame.points - UnionOf(rs);
      }
    }
  }

  /** The answer of `getFoodDesertGeometry`: the food-desert part of the frame (in the
      source's coordinates), its area and the frame's area (both in the database's). */
  datatype FoodDesertGeometry = FoodDesertGeometry(foodDeserts: Geometry, foodDesertArea: real, searchFrameArea: real)

  /** The road-network search's condition on a node: a finite label in [0, radius) that is
      the length of some walk from the start to the node, and an edge cache, when present,
      holding exactly the node's edges (a node whose edges could be fetched has some). */
  ghost predicate Labelled(db: NetworkDatabase, startId: Int32, n: Node, radius: real)
    reads n
  {
    && n.distance.Finite? && 0.0 <= n.distance.value < radius
    && Reaches(db.edges, startId, n.id, n.distance.value)
    && (n.edges.Some? ==> n.edges.value == IncidentEdges(db.edges, n.id) && n.edges.value != [])
  }

  /** The node `id` is stored and its point lies inside the bounds. */
  ghost predicate InBounds(db: NetworkDatabase, k: Kernel, bounds: Region, id: Int32)
  {
    id in db.nodes && k.contains(bounds, db.nodes[id].geometry)
  }

  /** A walk over the network from the start, shorter than the radius, that ends at a stored
      node inside the bounds. */
  ghost predicate ShortWalk(db: NetworkDatabase, k: Kernel, bounds: Region, radius: real, startId: Int32, path: seq<Edge>)
  {
    && (forall e | e in path :: e in db.edges)
    && WalkLength(path) < radius
    && WalkEnd(path, startId).Some? && InBounds(db, k, bounds, WalkEnd(path, startId).value)
  }

  /** An edge the search may record: the last road of such a walk. */
  ghost predicate Admitted(db: NetworkDatabase, k: Kernel, bounds: Region, radius: real, startId: Int32, e: Edge)
  {
    exists path | ShortWalk(db, k, bounds, radius, startId, path) :: path != [] && path[|path| - 1] == e
  }

  /** An admitted edge is a road of the network shorter than the radius with an end inside
      the bounds, reached from the start within the radius. */
  lemma AdmittedIsShortRoadIntoBounds(db: NetworkDatabase, k: Kernel, bounds: Region, radius: real, startId: Int32, e: Edge)
    requires db.Valid()
    requires Admitted(db, k, bounds, radius, startId, e)
    ensures e in db.edges && e.length < radius
    ensures InBounds(db, k, bounds, e.nodeFrom) || InBounds(db, k, bounds, e.nodeTo)
  {
    var path :| ShortWalk(db, k, bounds, radius, startId, path) && path != [] && path[|path| - 1] == e;
    WalkLengthBound(path);
    var n := |path| - 1;
    assert path[..n] + [e] == path;
  }

  /** Recording the road `e` from the node `u`, reached by a walk of length `d`, admits `e`
      when the walk goes on within the radius to a node inside the bounds. */
  lemma ExtendAdmits(db: NetworkDatabase, k: Kernel, bounds: Region, radius: real, startId: Int32, u: Int32, d: real, e: Edge)
    requires Reaches(db.edges, startId, u, d)
    requires e in db.edges && (e.nodeFrom == u || e.nodeTo == u)
    requires d + e.length < radius && InBounds(db, k, bounds, OtherEnd(e, u))
    ensures Admitted(db, k, bounds, radius, startId, e)
  {
    var path :| (forall x | x in path :: x in db.edges) && WalkEnd(path, startId) == Some(u) && WalkLength(path) == d;
    WalkStep(path, startId, e);
    var walk := path + [e];
    assert forall x | x in walk :: x in db.edges;
    assert ShortWalk(db, k, bounds, radius, startId, walk);
  }

  /** The invariant of the search: queued and expanded nodes are labelled below the radius
      and, apart from the start, have edges; the map is keyed by node id; every recorded edge
      is admitted. */
  ghost predicate SearchInvariant(db: NetworkDatabase, k: Kernel, bounds: Region, radius: real, startId: Int32,
                                  queue: seq<Node>, visited: map<Int32, Node>, recorded: set<Edge>)
    reads queue, visited.Values
  {
    && (forall n | n in queue :: Labelled(db, startId, n, radius) && (n.id == startId || IncidentEdges(db.edges, n.id) != []))
    && (forall id | id in visited :: visited[id].id == id && Labelled(db, startId, visited[id], radius) &&
                                     (id == startId || IncidentEdges(db.edges, id) != []))
    && (forall e | e in recorded :: Admitted(db, k, bounds, radius, startId, e))
  }

  /** Queuing a labelled node and recording an admitted edge keep the search invariant. */
  lemma QueueingKeepsInvariant(db: NetworkDatabase, k: Kernel, bounds: Region, radius: real, startId: Int32,
                               queue: seq<Node>, visited: map<Int32, Node>, recorded: set<Edge>, n: Node, e: Edge)
    requires SearchInvariant(db, k, bounds, radius, startId, queue, visited, recorded)
    requires Labelled(db, startId, n, radius) && (n.id == startId || IncidentEdges(db.edges, n.id) != [])
    requires Admitted(db, k, bounds, radius, startId, e)
    ensures SearchInvariant(db, k, bounds, radius, startId, queue + [n], visited, recorded + {e})
  {
    assert forall m | m in queue + [n] :: m in queue || m == n;
  }

  /** Some edge names a node that is not in the node table. */
  ghost predicate DanglingEdge(db: NetworkDatabase)
  {
    exists e | e in db.edges :: e.nodeFrom !in db.nodes || e.nodeTo !in db.nodes
  }

  /** The far ends, seen from node `u`, of the edges `es`: the only nodes relaxing them can
      relabel. */
  function FarEnds(es: seq<Edge>, u: Int32): set<Int32>
  {
    set e | e in es :: OtherEnd(e, u)
  }

  /** The line strings of a set of edges. */
  function EdgeLines(es: set<Edge>): set<seq<Coord>>
  {
    set e | e in es :: e.geometry
  }

  class FoodDesertQueryHandler {
    const foodDb: FoodDesertDatabase
    const networkDb: NetworkDatabase
    const placesClient: GroceryStoreSource
    /** `projSrcToDb` and `projDbToSrc`. */
    const srcToDb: Coord -> Coord
    const dbToSrc: Coord -> Coord

    ghost predicate Valid()
      reads this, foodDb, placesClient
    {
      foodDb.Valid() && placesClient.Valid() && networkDb.Valid()
    }

    constructor (foodDb: FoodDesertDatabase, networkDb: NetworkDatabase, placesClient: GroceryStoreSource,
                 srcToDb: Coord -> Coord, dbToSrc: Coord -> Coord)
      ensures this.foodDb == foodDb && this.networkDb == networkDb && this.placesClient == placesClient
      ensures this.srcToDb == srcToDb && this.dbToSrc == dbToSrc
    {
      this.foodDb := foodDb;
      this.networkDb := networkDb;
      this.placesClient := placesClient;
      this.srcToDb := srcToDb;
      this.dbToSrc := dbToSrc;
    }

    /** The one-mile disc about `p` (projected), with JTS's default 8 segments per quadrant. */
    function SearchDisc(p: Coord): Geometry
    {
      Geometry(Polygon, foodDb.kernel.circle(srcToDb(p), BufferRadiusMeters, DefaultQuadrantSegments))
    }

    /** No stored store lies in the rectangle containing the disc about `p`. */
    predicate NoStoreNear(p: Coord)
      reads foodDb
    {
      var e := foodDb.kernel.envelope(SearchDisc(p).points);
      forall k | 0 <= k < |foodDb.stores| :: !EnvelopeContains(e, foodDb.stores[k].location.x, foodDb.stores[k].location.y)
    }

    /** `isInFoodDesertUnchecked`: true exactly when no store lies in the disc's rectangle; it
        changes nothing. */
    method IsInFoodDesertUnchecked(p: Coord) returns (r: bool)
      ensures r <==> NoStoreNear(p)
    {
      var coordPoint := srcToDb(p);
      var buffer := Geometry(Polygon, foodDb.kernel.circle(coordPoint, BufferRadiusMeters, DefaultQuadrantSegments));
      var stores := foodDb.SelectStore(buffer);
      SelectInEnvelopeEmpty(foodDb.stores, foodDb.kernel.envelope(buffer.points));
      r := stores == [];
    }

    /** `insertAllPlacesQueries`: one query per centre, each failure swallowed, and everything
        collected inserted with a single `insertAll`, whose failure is passed on. */
    method InsertAllPlacesQueries(ps: seq<Coord>) returns (outcome: Outcome)
      requires Valid()
      modifies foodDb, placesClient
      ensures Valid()
      ensures placesClient.queries == old(placesClient.queries) + QueriesFor(ps)
      ensures placesClient.numQueries == old(placesClient.numQueries) + |ps|
      ensures foodDb.searched == old(foodDb.searched)
      ensures StoreTable.InsertAll(old(foodDb.stores), old(foodDb.lastInsertRowId), Gathered(placesClient.answer, srcToDb, ps)) ==
                Batch(foodDb.stores, foodDb.lastInsertRowId, outcome)
    {
      var allStores: seq<GroceryStore> := [];
      for i := 0 to |ps|
        invariant Valid() && unchanged(foodDb)
        invariant placesClient.queries == old(placesClient.queries) + QueriesFor(ps[..i])
        invariant allStores == Gathered(placesClient.answer, srcToDb, ps[..i])
      {
        assert ps[..i + 1][..i] == ps[..i];
        var bufferRadius := JavaIntCast(BufferRadiusMeters);
        var stores := placesClient.NearbyQueryFor(ps[i], bufferRadius);
        if stores.Some? {
          allStores := allStores + TransformStores(stores.value, srcToDb);
        }
      }
      assert ps[..|ps|] == ps;
      QueriesForShape(ps);
      outcome := foodDb.InsertAll(allStores);
    }

    /** `isInFoodDesert`: a point outside the searched area is first queried and its disc
        recorded as searched; the answer is then read from the store table. */
    method IsInFoodDesert(p: Coord) returns (r: Result<bool>)
      requires Valid()
      modifies foodDb, placesClient
      ensures Valid()
      ensures old(foodDb.InSearchedBuffer(srcToDb(p))) ==> r.Ok? && unchanged(foodDb, placesClient)
      ensures !old(foodDb.InSearchedBuffer(srcToDb(p))) ==>
                placesClient.queries == old(placesClient.queries) + QueriesFor([p]) &&
                var batch := StoreTable.InsertAll(old(foodDb.stores), old(foodDb.lastInsertRowId),
                                                  Gathered(placesClient.answer, srcToDb, [p]));
                foodDb.stores == batch.rows &&
                (batch.outcome.Fail? ==> r == Err(batch.outcome.error) && foodDb.searched == old(foodDb.searched) &&
                                         foodDb.lastInsertRowId == batch.lastInsertRowId) &&
                (batch.outcome.Pass? ==> foodDb.searched == old(foodDb.searched) + [SearchDisc(p).points] &&
                                         foodDb.lastInsertRowId == |foodDb.searched|)
      ensures r.Ok? ==> (r.value <==> NoStoreNear(p))
      ensures r.Ok? && Sound(foodDb.kernel) ==> foodDb.InSearchedBuffer(srcToDb(p))
    {
      var dbCoord := srcToDb(p);
      if !foodDb.InSearchedBuffer(dbCoord) {
        var outcome := InsertAllPlacesQueries([p]);
        if outcome.Fail? {
          return Err(outcome.error);
        }
        var coordPoint := srcToDb(p);
        var buffer := Geometry(Polygon, foodDb.kernel.circle(coordPoint, BufferRadiusMeters, DefaultQuadrantSegments));
        foodDb.InsertSearchedPolygon(buffer);
        if Sound(foodDb.kernel) {
          assert foodDb.kernel.contains(foodDb.searched[|foodDb.searched| - 1], dbCoord);
        }
      }
      var unchecked := IsInFoodDesertUnchecked(p);
      r := Ok(unchecked);
    }

    /** Asking twice about the same point: with a sound library a first answer means the
        second gives the same answer and costs no external query, so the two together make
        exactly one query about an unsearched point and none about a searched one. */
    method AskTwice(p: Coord) returns (first: Result<bool>, second: Result<bool>)
      requires Valid()
      modifies foodDb, placesClient
      ensures Valid()
      ensures Sound(foodDb.kernel) && first.Ok? ==>
                second == first &&
                placesClient.numQueries == old(placesClient.numQueries) + (if old(foodDb.InSearchedBuffer(srcToDb(p))) then 0 else 1)
    {
      first := IsInFoodDesert(p);
      ghost var between := placesClient.numQueries;
      second := IsInFoodDesert(p);
      if Sound(foodDb.kernel) && first.Ok? {
        assert placesClient.numQueries == between;
      }
    }

    /** A store added at the point itself after a successful first answer makes the point no
        longer a food desert, without another external query. */
    method StoreAtPointEndsFoodDesert(p: Coord, name: Option<string>) returns (first: Result<bool>, second: Result<bool>)
      requires Valid()
      modifies foodDb, placesClient
      ensures Valid()
      ensures Sound(foodDb.kernel) && first.Ok? ==> second == Ok(false)
    {
      first := IsInFoodDesert(p);
      ghost var searchedBefore := foodDb.searched;
      ghost var rowsBefore := foodDb.stores;
      var store := GroceryStore(NoId, name, srcToDb(p));
      var inserted := foodDb.InsertStore(store);
      if Sound(foodDb.kernel) && first.Ok? {
        var k := foodDb.kernel;
        var c := srcToDb(p);
        assert foodDb.searched == searchedBefore;
        assert foodDb.InSearchedBuffer(c);
        assert k.contains(SearchDisc(p).points, c);
        assert EnvelopeContains(k.envelope(SearchDisc(p).points), c.x, c.y);
        assert !HasId(store);
        var j: nat;
        if HasLocation(rowsBefore, c) {
          j :| j < |rowsBefore| && rowsBefore[j].location == c;
          assert foodDb.stores == rowsBefore;
        } else {
          j := |rowsBefore|;
          assert foodDb.stores == rowsBefore + [StoreRow(name, c)];
        }
        assert foodDb.stores[j].location == c;
        assert !NoStoreNear(p);
      }
      second := IsInFoodDesert(p);
    }

    /** The region the planner covers for a frame in source coordinates: the simplification
        of the unsearched part of the projected frame. */
    function SimplifiedUnsearched(searchFrame: Geometry): Geometry
      reads foodDb
    {
      var k := foodDb.kernel;
      k.simplify(foodDb.SelectUnsearchedBuffer(k.transform(searchFrame, srcToDb)))
    }

    /** The planned query centres for a region, in source coordinates. */
    function PlannedCentres(region: Geometry): seq<Coord>
    {
      var k := foodDb.kernel;
      Select(Candidates(k.envelope(region.points), BufferRadiusMeters, k.sqrt3), k, region.points, BufferRadiusMeters, dbToSrc)
    }

    /** What `getAllGroceryStores(searchFrame)` does to the database and the store source and
        what it answers: an invalid simplified unsearched region is an IllegalStateException
        before anything happens; otherwise the planned centres are queried, the answers are
        inserted with one batch whose failure is passed on, the whole region is recorded as
        searched, and the stores in the projected frame's rectangle are returned in source
        coordinates. */
    twostate predicate StoresGathered(searchFrame: Geometry, new r: Result<seq<GroceryStore>>)
      reads foodDb, placesClient
    {
      var simple := old(SimplifiedUnsearched(searchFrame));
      && (!foodDb.kernel.isValid(simple) ==> r == Err(IllegalStateException) && unchanged(foodDb, placesClient))
      && (foodDb.kernel.isValid(simple) ==>
            placesClient.queries == old(placesClient.queries) + QueriesFor(PlannedCentres(simple)) &&
            var batch := StoreTable.InsertAll(old(foodDb.stores), old(foodDb.lastInsertRowId),
                                              Gathered(placesClient.answer, srcToDb, PlannedCentres(simple)));
            foodDb.stores == batch.rows &&
            (batch.outcome.Fail? ==> r == Err(batch.outcome.error) && foodDb.searched == old(foodDb.searched) &&
                                     foodDb.lastInsertRowId == batch.lastInsertRowId) &&
            (batch.outcome.Pass? ==>
               foodDb.searched == old(foodDb.searched) + Recorded(simple) &&
               foodDb.lastInsertRowId == (if simple.kind != Other then |foodDb.searched| else batch.lastInsertRowId) &&
               var frameRect := foodDb.kernel.envelope(foodDb.kernel.transform(searchFrame, srcToDb).points);
               r == Ok(TransformStores(SelectInEnvelope(foodDb.stores, frameRect), dbToSrc))))
    }

    /** `getAllGroceryStores`, as `StoresGathered` describes it. */
    method GetAllGroceryStores(searchFrame: Geometry) returns (r: Result<seq<GroceryStore>>)
      requires Valid()
      modifies foodDb, placesClient
      ensures Valid()
      ensures StoresGathered(searchFrame, r)
    {
      var k := foodDb.kernel;
      var projectedSearchFrame := k.transform(searchFrame, srcToDb);
      var unsearchedBuffer := foodDb.SelectUnsearchedBuffer(projectedSearchFrame);
      var simpleUnsearchedBuffer := k.simplify(unsearchedBuffer);
      var radius := BufferRadiusMeters;
      var boundingRect := k.envelope(simpleUnsearchedBuffer.points);
      if !k.isValid(simpleUnsearchedBuffer) {
        return Err(IllegalStateException);
      }
      var queryCoordinates := PlanQueryCentres(k, simpleUnsearchedBuffer.points, boundingRect, radius, dbToSrc);
      var outcome := InsertAllPlacesQueries(queryCoordinates);
      if outcome.Fail? {
        return Err(outcome.error);
      }
      foodDb.InsertSearchedBuffer(simpleUnsearchedBuffer);
      var selected := foodDb.SelectStore(projectedSearchFrame);
      r := Ok(TransformStores(selected, dbToSrc));
    }

    /** Searching the same frame twice. When the simplification keeps every unsearched point,
        is polygonal unless nothing was unsearched, and leaves an empty region empty, a
        successful first search leaves nothing of the frame unsearched, so the second search
        makes no external query and answers the same stores, unless the library calls the
        empty simplification invalid, which is the IllegalStateException. */
    method SearchTwice(searchFrame: Geometry) returns (first: Result<seq<GroceryStore>>, second: Result<seq<GroceryStore>>)
      requires Valid() && Sound(foodDb.kernel)
      requires var g := foodDb.SelectUnsearchedBuffer(foodDb.kernel.transform(searchFrame, srcToDb));
               var simple := foodDb.kernel.simplify(g);
               g.points <= simple.points && (simple.kind != Other || g.points == iset{})
      requires forall g: Geometry | g.points == iset{} :: foodDb.kernel.simplify(g).points == iset{}
      modifies foodDb, placesClient
      ensures Valid()
      ensures first.Ok? ==>
                placesClient.queries == old(placesClient.queries) + QueriesFor(PlannedCentres(old(SimplifiedUnsearched(searchFrame))))
      ensures first.Ok? ==> second == first || second == Err(IllegalStateException)
    {
      ghost var k := foodDb.kernel;
      ghost var frame := k.transform(searchFrame, srcToDb);
      ghost var simple := SimplifiedUnsearched(searchFrame);
      ghost var searchedBefore := foodDb.searched;
      first := GetAllGroceryStores(searchFrame);
      ghost var queriesBetween := placesClient.queries;
      ghost var storesBetween := foodDb.stores;
      if first.Ok? {
        SearchCoversFrame(k, searchedBefore, frame, simple);
        assert foodDb.searched == searchedBefore + Recorded(simple);
        assert SimplifiedUnsearched(searchFrame).points == iset{};
        EmptyRegionPlansNothing(Candidates(k.envelope(SimplifiedUnsearched(searchFrame).points), BufferRadiusMeters, k.sqrt3),
                                k, BufferRadiusMeters, dbToSrc);
        assert PlannedCentres(SimplifiedUnsearched(searchFrame)) == [];
      }
      second := GetAllGroceryStores(searchFrame);
    }

    /** An edge to an already expanded node: the node's label is replaced only by a strictly
        smaller one, and the node is then taken out of the map and queued again. */
    method Relabel(startId: Int32, nextId: Int32, newDistance: real, bufferBounds: Geometry,
                   queue: seq<Node>, visited: map<Int32, Node>, recorded: set<Edge>, ghost outer: map<Int32, Node>)
      returns (queue': seq<Node>, visited': map<Int32, Node>)
      requires SearchInvariant(networkDb, foodDb.kernel, bufferBounds.points, BufferRadiusMeters, startId, queue, visited, recorded)
      requires nextId in visited
      requires 0.0 <= newDistance && Reaches(networkDb.edges, startId, nextId, newDistance)
      requires forall id | id in outer :: outer[id].id == id
      modifies visited[nextId]
      ensures forall id | id in outer ::
                outer[id].edges == old(outer[id].edges) &&
                (outer[id].distance == old(outer[id].distance) || id == nextId)
      ensures SearchInvariant(networkDb, foodDb.kernel, bufferBounds.points, BufferRadiusMeters, startId, queue', visited', recorded)
      ensures if Below(newDistance, old(visited[nextId].distance)) then
                visited[nextId].distance == Finite(newDistance) && queue' == queue + [visited[nextId]] && visited' == visited - {nextId}
              else
                visited[nextId].distance == old(visited[nextId].distance) && queue' == queue && visited' == visited
      ensures visited[nextId].edges == old(visited[nextId].edges)
    {
      var next := visited[nextId];
      queue', visited' := queue, visited;
      if Below(newDistance, next.distance) {
        next.SetDistance(Finite(newDistance));
        visited' := visited - {nextId};
        queue' := queue + [next];
      }
    }

    /** The branch of a relaxation whose far end `OtherEnd(e, u)` is not expanded, with `d`
        the label of `u`: when `d + e.length` is below the radius the far end is fetched (an
        unknown node is an SQLException) and, if it lies in the bounds, a new node for it is
        queued with that label and the edge is recorded; otherwise nothing changes. */
    method Discover(startId: Int32, u: Int32, d: real, e: Edge, bufferBounds: Geometry,
                    queue: seq<Node>, visited: map<Int32, Node>, recorded: set<Edge>)
      returns (r: Result<(seq<Node>, set<Edge>)>)
      requires networkDb.Valid()
      requires SearchInvariant(networkDb, foodDb.kernel, bufferBounds.points, BufferRadiusMeters, startId, queue, visited, recorded)
      requires 0.0 <= d && Reaches(networkDb.edges, startId, u, d)
      requires e in networkDb.edges && (e.nodeFrom == u || e.nodeTo == u)
      requires OtherEnd(e, u) !in visited
      ensures r.Ok? ==> var (queue', recorded') := r.value;
                SearchInvariant(networkDb, foodDb.kernel, bufferBounds.points, BufferRadiusMeters, startId, queue', visited, recorded') &&
                (forall n | n in queue' :: n in queue || fresh(n)) &&
                if d + e.length < BufferRadiusMeters && InBounds(networkDb, foodDb.kernel, bufferBounds.points, OtherEnd(e, u)) then
                  recorded' == recorded + {e} &&
                  |queue'| == |queue| + 1 && queue'[..|queue|] == queue && fresh(queue'[|queue|]) &&
                  queue'[|queue|].id == OtherEnd(e, u) && queue'[|queue|].distance == Finite(d + e.length)
                else
                  queue' == queue && recorded' == recorded
      ensures r.Err? <==> OtherEnd(e, u) !in networkDb.nodes && d + e.length < BufferRadiusMeters
      ensures r.Err? ==> r.error == SqlException && DanglingEdge(networkDb)
    {
      var newDistance := d + e.length;
      var nextId := OtherEnd(e, u);
      if newDistance < BufferRadiusMeters {
        var fetchedNode := networkDb.GetNode(nextId);
        if fetchedNode.Err? {
          assert e.nodeFrom !in networkDb.nodes || e.nodeTo !in networkDb.nodes;
          return Err(fetchedNode.error);
        }
        var next := fetchedNode.value;
        if foodDb.kernel.contains(bufferBounds.points, next.GetGeometry()) {
          next.SetDistance(Finite(newDistance));
          ReachesStep(networkDb.edges, startId, u, d, e);
          ExtendAdmits(networkDb, foodDb.kernel, bufferBounds.points, BufferRadiusMeters, startId, u, d, e);
          assert e in IncidentEdges(networkDb.edges, next.id);
          QueueingKeepsInvariant(networkDb, foodDb.kernel, bufferBounds.points, BufferRadiusMeters, startId,
                                 queue, visited, recorded, next, e);
          assert (queue + [next])[..|queue|] == queue;
          assert forall n | n in queue + [next] :: n in queue || n == next;
          return Ok((queue + [next], recorded + {e}));
        }
      }
      r := Ok((queue, recorded));
    }

    /** One step of the inner loop of `networkBuffer`'s walk: the edge `e` of the node
        `current`, whose label is `du`, is relaxed, with `d = du + e.length` the label
        through `current`. Only the far end's node, if it is expanded, is touched. When the far end is
        already expanded, only its label is lowered to `d`, if that is smaller, and it is then
        un-expanded and re-queued; nothing is recorded. Otherwise, when `d` is below the
        radius, the far end is fetched (an unknown node is an SQLException) and, if it lies in
        the bounds, a new node for it is queued with label `d` and the edge is recorded; in
        every other case nothing changes. */
    method RelaxEdge(startId: Int32, current: Node, du: real, e: Edge, bufferBounds: Geometry,
                     queue: seq<Node>, visited: map<Int32, Node>, recorded: set<Edge>, ghost outer: map<Int32, Node>)
      returns (r: Result<(seq<Node>, map<Int32, Node>, set<Edge>)>)
      requires networkDb.Valid()
      requires SearchInvariant(networkDb, foodDb.kernel, bufferBounds.points, BufferRadiusMeters, startId, queue, visited, recorded)
      requires Labelled(networkDb, startId, current, BufferRadiusMeters) && current.distance == Finite(du)
      requires e in IncidentEdges(networkDb.edges, current.id)
      modifies if OtherEnd(e, current.id) in visited then {visited[OtherEnd(e, current.id)]} else {}
      requires forall id | id in outer :: outer[id].id == id
      requires forall id | id in visited :: id in outer && outer[id] == visited[id]
      ensures forall id | id in outer ::
                outer[id].edges == old(outer[id].edges) &&
                (outer[id].distance == old(outer[id].distance) || id == OtherEnd(e, current.id))
      ensures r.Ok? ==> var (queue', visited', recorded') := r.value;
                SearchInvariant(networkDb, foodDb.kernel, bufferBounds.points, BufferRadiusMeters, startId, queue', visited', recorded') &&
                Labelled(networkDb, startId, current, BufferRadiusMeters) && current.edges == old(current.edges) &&
                (forall n | n in queue' :: n in queue || n in visited.Values || fresh(n)) &&
                (forall id | id in visited' :: id in visited && visited'[id] == visited[id]) &&
                (current.id in visited && visited[current.id] == current ==> current.id in visited' && visited'[current.id] == current)
      ensures var nextId := OtherEnd(e, current.id);
              var d := du + e.length;
              r.Ok? && nextId in visited ==> var (queue', visited', recorded') := r.value;
                recorded' == recorded &&
                if Below(d, old(visited[nextId].distance)) then
                  visited[nextId].distance == Finite(d) && queue' == queue + [visited[nextId]] && visited' == visited - {nextId}
                else
                  visited[nextId].distance == old(visited[nextId].distance) && queue' == queue && visited' == visited
      ensures var nextId := OtherEnd(e, current.id);
              var d := du + e.length;
              r.Ok? && nextId !in visited ==> var (queue', visited', recorded') := r.value;
                if d < BufferRadiusMeters && InBounds(networkDb, foodDb.kernel, bufferBounds.points, nextId) then
                  recorded' == recorded + {e} && visited' == visited &&
                  |queue'| == |queue| + 1 && queue'[..|queue|] == queue && fresh(queue'[|queue|]) &&
                  queue'[|queue|].id == nextId && queue'[|queue|].distance == Finite(d)
                else
                  queue' == queue && visited' == visited && recorded' == recorded
      ensures r.Err? <==> OtherEnd(e, current.id) !in visited && OtherEnd(e, current.id) !in networkDb.nodes &&
                          du + e.length < BufferRadiusMeters
      ensures r.Err? ==> r.error == SqlException && DanglingEdge(networkDb)
    {
      var newDistance := du + e.length;
      var nextId := if e.nodeFrom == current.id then e.nodeTo else e.nodeFrom;
      if nextId in visited {
        ghost var far := visited[nextId];
        if far == current {
          // a self-loop never lowers the label, since roads have non-negative length
          assert e in networkDb.edges && !Below(newDistance, current.distance);
        }
        assert far in visited.Values;
        ReachesStep(networkDb.edges, startId, current.id, du, e);
        var queue', visited' := Relabel(startId, nextId, newDistance, bufferBounds, queue, visited, recorded, outer);
        return Ok((queue', visited', recorded));
      }
      var discovered := Discover(startId, current.id, du, e, bufferBounds, queue, visited, recorded);
      if discovered.Err? {
        return Err(discovered.error);
      }
      r := Ok((discovered.value.0, visited, discovered.value.1));
    }

    /** The inner loop of `networkBuffer`'s walk: every edge `es` of the node `current` just
        expanded is relaxed, in order; only edges among them are recorded, and `current` keeps
        its place in the map. */
    method RelaxEdges(startId: Int32, current: Node, es: seq<Edge>, bufferBounds: Geometry,
                      queue: seq<Node>, visited: map<Int32, Node>, recorded: set<Edge>)
      returns (r: Result<(seq<Node>, map<Int32, Node>, set<Edge>)>)
      requires networkDb.Valid()
      requires SearchInvariant(networkDb, foodDb.kernel, bufferBounds.points, BufferRadiusMeters, startId, queue, visited, recorded)
      requires Labelled(networkDb, startId, current, BufferRadiusMeters)
      requires es == IncidentEdges(networkDb.edges, current.id)
      requires current.id in visited && visited[current.id] == current
      modifies visited.Values
      ensures forall id | id in visited ::
                visited[id].edges == old(visited[id].edges) &&
                (visited[id].distance == old(visited[id].distance) || id in FarEnds(es, current.id))
      ensures r.Ok? ==> var (queue', visited', recorded') := r.value;
                SearchInvariant(networkDb, foodDb.kernel, bufferBounds.points, BufferRadiusMeters, startId, queue', visited', recorded') &&
                current.edges == old(current.edges) &&
                (forall n | n in queue' :: n in queue || n in visited.Values || fresh(n)) &&
                (forall id | id in visited' :: id in visited && visited'[id] == visited[id]) &&
                current.id in visited' && visited'[current.id] == current &&
                recorded <= recorded' && (forall e | e in recorded' :: e in recorded || e in es)
      ensures r.Err? ==> r.error == SqlException && DanglingEdge(networkDb)
    {
      var searchQueue: seq<Node> := queue;
      var visitedSet: map<Int32, Node> := visited;
      var visitedEdgeSet: set<Edge> := recorded;
      ghost var touched: set<Int32> := {};
      for m := 0 to |es|
        invariant Labelled(networkDb, startId, current, BufferRadiusMeters)
        invariant SearchInvariant(networkDb, foodDb.kernel, bufferBounds.points, BufferRadiusMeters, startId,
                                  searchQueue, visitedSet, visitedEdgeSet)
        invariant forall n | n in searchQueue :: n in queue || n in visited.Values || fresh(n)
        invariant forall id | id in visitedSet :: id in visited && visitedSet[id] == visited[id]
        invariant current.id in visitedSet && visitedSet[current.id] == current
        invariant recorded <= visitedEdgeSet && forall e | e in visitedEdgeSet :: e in recorded || e in es
        invariant touched <= FarEnds(es, current.id)
        invariant forall id | id in visited ::
                    visited[id].edges == old(visited[id].edges) && (visited[id].distance == old(visited[id].distance) || id in touched)
      {
        assert visitedSet.Values <= visited.Values;
        var relaxed := RelaxEdge(startId, current, current.distance.value, es[m], bufferBounds, searchQueue, visitedSet, visitedEdgeSet, visited);
        if relaxed.Err? {
          return Err(relaxed.error);
        }
        touched := touched + {OtherEnd(es[m], current.id)};
        searchQueue, visitedSet, visitedEdgeSet := relaxed.value.0, relaxed.value.1, relaxed.value.2;
      }
      assert current in visited.Values;
      r := Ok((searchQueue, visitedSet, visitedEdgeSet));
    }

    /** The edges of a dequeued node: those cached on it or, when nothing is cached, those
        `getEdges` fetches (a node without edges is an SQLException), which are then cached on
        it. Only the cache changes. */
    method CacheEdges(startId: Int32, current: Node) returns (r: Result<seq<Edge>>)
      requires Labelled(networkDb, startId, current, BufferRadiusMeters)
      modifies current
      ensures current.distance == old(current.distance)
      ensures r.Ok? ==> r.value == IncidentEdges(networkDb.edges, current.id) && current.edges == Some(r.value) &&
                        Labelled(networkDb, startId, current, BufferRadiusMeters)
      ensures r.Err? <==> IncidentEdges(networkDb.edges, current.id) == []
      ensures r.Err? ==> r.error == SqlException
    {
      if current.edges == None {
        var fetched := networkDb.GetEdges(current);
        if fetched.Err? {
          return Err(fetched.error);
        }
        current.SetEdges(fetched.value);
      }
      r := Ok(current.edges.value);
    }

    /** Expanding a dequeued node whose id is not in the map: it is entered in the map, its
        edges are fetched unless cached (a node without edges is an SQLException) and cached
        on it, and they are relaxed; only edges at the node are recorded. */
    method Expand(startId: Int32, current: Node, bufferBounds: Geometry,
                  queue: seq<Node>, visited: map<Int32, Node>, recorded: set<Edge>)
      returns (r: Result<(seq<Node>, map<Int32, Node>, set<Edge>)>)
      requires networkDb.Valid()
      requires SearchInvariant(networkDb, foodDb.kernel, bufferBounds.points, BufferRadiusMeters, startId, queue, visited, recorded)
      requires Labelled(networkDb, startId, current, BufferRadiusMeters)
      requires current.id == startId || IncidentEdges(networkDb.edges, current.id) != []
      requires current.id !in visited
      modifies visited.Values, current
      ensures forall n | n in visited.Values && n != current ::
                n.edges == old(n.edges) &&
                (n.distance == old(n.distance) || n.id in FarEnds(IncidentEdges(networkDb.edges, current.id), current.id))
      ensures r.Ok? ==> var (queue', visited', recorded') := r.value;
                SearchInvariant(networkDb, foodDb.kernel, bufferBounds.points, BufferRadiusMeters, startId, queue', visited', recorded') &&
                (forall n | n in queue' :: n in queue || n in visited.Values || n == current || fresh(n)) &&
                (forall n | n in visited'.Values :: n in visited.Values || n == current) &&
                current.id in visited' && visited'[current.id] == current &&
                current.edges == Some(IncidentEdges(networkDb.edges, current.id)) &&
                recorded <= recorded' && (forall e | e in recorded' :: e in recorded || e in IncidentEdges(networkDb.edges, current.id))
      ensures r.Ok? ==> IncidentEdges(networkDb.edges, current.id) != []
      ensures r.Err? ==> r.error == SqlException
      ensures r.Err? ==> IncidentEdges(networkDb.edges, current.id) == [] || DanglingEdge(networkDb)
    {
      var visitedSet := visited[current.id := current];
      forall n | n in visitedSet.Values ensures n in visited.Values || n == current {
        var id :| id in visitedSet && visitedSet[id] == n;
        if id != current.id {
          assert n in visited.Values;
        }
      }
      var cached := CacheEdges(startId, current);
      if cached.Err? {
        return Err(cached.error);
      }
      label cached:
      var relaxed := RelaxEdges(startId, current, cached.value, bufferBounds, queue, visitedSet, recorded);
      forall n | n in visited.Values && n != current
        ensures n.edges == old(n.edges)
        ensures n.distance == old(n.distance) || n.id in FarEnds(IncidentEdges(networkDb.edges, current.id), current.id)
      {
        var id :| id in visited && visited[id] == n;
        assert visitedSet[id] == n && n.id == id;
        assert n.edges == old@cached(n.edges) == old(n.edges);
      }
      if relaxed.Err? {
        return Err(relaxed.error);
      }
      r := relaxed;
      forall n | n in relaxed.value.1.Values ensures n in visited.Values || n == current {
        var id :| id in relaxed.value.1 && relaxed.value.1[id] == n;
        assert n in visitedSet.Values;
      }
    }

    /** The walk of `networkBuffer` from `start`, which carries label 0: a FIFO queue of nodes,
        a map of the expanded nodes by id and the set of recorded edges. A dequeued node is
        expanded when its id is not in the map. Every recorded edge ends a walk from `start`
        that stays below the radius and reaches a node inside the bounds. A search that runs
        out of its `fuel` budget of dequeues stops with SearchBound. */
    method Explore(start: Node, bufferBounds: Geometry, fuel: nat) returns (r: Result<set<Edge>>)
      requires networkDb.Valid()
      requires start.distance == Finite(0.0) && start.edges == None
      modifies start
      ensures r.Ok? ==> forall e | e in r.value :: Admitted(networkDb, foodDb.kernel, bufferBounds.points, BufferRadiusMeters, start.id, e)
      ensures r.Ok? ==> IncidentEdges(networkDb.edges, start.id) != []
      ensures r.Err? ==> r.error == SqlException || r.error == SearchBound
      ensures r == Err(SqlException) ==> IncidentEdges(networkDb.edges, start.id) == [] || DanglingEdge(networkDb)
    {
      var searchQueue: seq<Node> := [start];
      var visitedSet: map<Int32, Node> := map[];
      var visitedEdgeSet: set<Edge> := {};
      ghost var started := false;
      var steps := fuel;
      ReachesStep(networkDb.edges, start.id, start.id, 0.0, Edge(0, 0, 0, 0.0, []));
      while searchQueue != []
        invariant forall n | n in searchQueue :: n == start || fresh(n)
        invariant forall n | n in visitedSet.Values :: n == start || fresh(n)
        invariant SearchInvariant(networkDb, foodDb.kernel, bufferBounds.points, BufferRadiusMeters, start.id,
                                  searchQueue, visitedSet, visitedEdgeSet)
        invariant !started ==> searchQueue == [start] && visitedSet == map[] && start.edges == None
        invariant started ==> IncidentEdges(networkDb.edges, start.id) != []
        decreases steps
      {
        if steps == 0 {
          return Err(SearchBound);
        }
        steps := steps - 1;
        var current := searchQueue[0];
        assert current in searchQueue;
        assert forall n | n in searchQueue[1..] :: n in searchQueue;
        searchQueue := searchQueue[1..];
        if current.id !in visitedSet {
          var expanded := Expand(start.id, current, bufferBounds, searchQueue, visitedSet, visitedEdgeSet);
          if expanded.Err? {
            return Err(expanded.error);
          }
          started := true;
          searchQueue, visitedSet, visitedEdgeSet := expanded.value.0, expanded.value.1, expanded.value.2;
        }
      }
      r := Ok(visitedEdgeSet);
    }

    /** What `networkBuffer` may answer about `center`: the empty collection when no node lies
        near it, otherwise the concave hull of the lines of a set of edges each of which ends
        a walk from the node nearest the centre that stays below the radius and reaches a node
        inside the bounds. */
    ghost predicate IsNetworkBuffer(center: Coord, bufferBounds: Geometry, g: Geometry)
    {
      match networkDb.nearest(center, BufferRadiusMeters)
      case None => g == EmptyCollection
      case Some(startId) =>
        exists es: set<Edge> | (forall e | e in es :: Admitted(networkDb, foodDb.kernel, bufferBounds.points, BufferRadiusMeters, startId, e)) ::
          g == foodDb.kernel.concaveHull(EdgeLines(es), ConcaveHullThreshold)
    }

    /** `networkBuffer`: an empty collection when no node lies near the centre, otherwise the
        concave hull of the lines of the edges the walk from the nearest node records. */
    method NetworkBuffer(center: Coord, bufferBounds: Geometry, fuel: nat) returns (r: Result<Geometry>)
      requires networkDb.Valid()
      ensures networkDb.nearest(center, BufferRadiusMeters).None? ==> r == Ok(EmptyCollection)
      ensures r.Ok? ==> IsNetworkBuffer(center, bufferBounds, r.value)
      ensures r.Err? ==> r.error == SqlException || r.error == SearchBound
    {
      var intialNode := networkDb.GetNearestNode(center, BufferRadiusMeters);
      if intialNode == null {
        return Ok(EmptyCollection);
      }
      intialNode.SetDistance(Finite(0.0));
      var visitedEdgeSet := Explore(intialNode, bufferBounds, fuel);
      if visitedEdgeSet.Err? {
        return Err(visitedEdgeSet.error);
      }
      r := Ok(foodDb.kernel.concaveHull(EdgeLines(visitedEdgeSet.value), ConcaveHullThreshold));
    }

    /** The frame `getFoodDesertGeometry` gathers stores over: the projected frame buffered by
        the radius, projected back to source coordinates. */
    function BufferedFrame(searchFrame: Geometry): Geometry
    {
      var k := foodDb.kernel;
      k.transform(k.buffer(k.transform(searchFrame, srcToDb), BufferRadiusMeters), dbToSrc)
    }

    /** `getFoodDesertGeometry`: the stores of the frame buffered by the radius are gathered
        (`found`, with the database and the store source left as `StoresGathered` says), a
        network buffer about each of them is computed, in order (`buffers`; the first that
        fails ends the call with its error), and the food desert is the projected frame minus
        the union of the buffers. */
    method GetFoodDesertGeometry(searchFrame: Geometry, fuel: nat)
      returns (r: Result<FoodDesertGeometry>, ghost found: Result<seq<GroceryStore>>, ghost buffers: seq<Geometry>)
      requires Valid()
      modifies foodDb, placesClient
      ensures Valid()
      ensures StoresGathered(BufferedFrame(searchFrame), found)
      ensures found.Err? ==> r == Err(found.error)
      ensures found.Ok? ==>
                |buffers| <= |found.value| &&
                forall i | 0 <= i < |buffers| ::
                  IsNetworkBuffer(srcToDb(found.value[i].location),
                                  foodDb.kernel.buffer(foodDb.kernel.transform(searchFrame, srcToDb), BufferRadiusMeters), buffers[i])
      ensures found.Ok? && r.Err? ==> r.error == SqlException || r.error == SearchBound
      ensures var k := foodDb.kernel;
              var projected := k.transform(searchFrame, srcToDb);
              var covered := UnionOf(PointsOf(buffers));
              r.Ok? ==> found.Ok? && |buffers| == |found.value| &&
                        r.value.searchFrameArea == k.area(projected.points) &&
                        r.value.foodDesertArea == k.area(Difference(k, projected, covered).points) &&
                        r.value.foodDeserts == k.transform(Difference(k, projected, covered), dbToSrc)
      ensures var k := foodDb.kernel;
              var projected := k.transform(searchFrame, srcToDb);
              r.Ok? && Sound(k) ==>
                Difference(k, projected, UnionOf(PointsOf(buffers))).points == projected.points - UnionOf(PointsOf(buffers)) &&
                r.value.foodDesertArea <= r.value.searchFrameArea
    {
      var k := foodDb.kernel;
      var projectedSearchFrame := k.transform(searchFrame, srcToDb);
      var bufferedSearchFrame := k.buffer(projectedSearchFrame, BufferRadiusMeters);
      var srcBufferedSearchFrame := k.transform(bufferedSearchFrame, dbToSrc);
      var stores := GetAllGroceryStores(srcBufferedSearchFrame);
      found, buffers := stores, [];
      if stores.Err? {
        return Err(stores.error), found, buffers;
      }
      label gathered:
      var union: Region := EmptyCollection.points;
      for i := 0 to |stores.value|
        invariant Valid() && unchanged@gathered(foodDb, placesClient)
        invariant |buffers| == i
        invariant forall j | 0 <= j < i :: IsNetworkBuffer(srcToDb(stores.value[j].location), bufferedSearchFrame, buffers[j])
        invariant union == UnionOf(PointsOf(buffers))
      {
        var location := srcToDb(stores.value[i].location);
        var buffer := NetworkBuffer(location, bufferedSearchFrame, fuel);
        if buffer.Err? {
          return Err(buffer.error), found, buffers;
        }
        UnionOfAppend(PointsOf(buffers), buffer.value.points);
        assert PointsOf(buffers + [buffer.value]) == PointsOf(buffers) + [buffer.value.points];
        buffers := buffers + [buffer.value];
        union := union + buffer.value.points;
      }
      var projectedFoodDesert := Difference(k, projectedSearchFrame, union);
      var foodDeserts := k.transform(projectedFoodDesert, dbToSrc);
      DifferencePoints(k, projectedSearchFrame, union);
      r := Ok(FoodDesertGeometry(foodDeserts, k.area(projectedFoodDesert.points), k.area(projectedSearchFrame.points)));
    }
  }
}
