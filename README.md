# FoodDesertServer core, modelled in Dafny

FoodDesertServer answers three questions about a map:
- is a point in a food desert, that is, is there no grocery store within one mile of it;
- which grocery stores lie in a frame;
- which part of a frame is a food desert.

This project models the server's core:
- the query handler (`FoodDesertQueryHandler`);
- the two versions of the SpatiaLite food-desert database (`database.fooddesert` and the older `fooddesertdatabase`);
- the value types these use: `GroceryStore`, the road-network `Node` and `Edge`, and `PointTransformer`;
- the counting test store source.

The handler is coverage driven. The database keeps a table of grocery stores and a table of regions that have already been searched:
- A point outside every searched region causes one external query. Its one-mile disc is then recorded as searched.
- A frame's unsearched part is simplified. It is covered by a hexagonal lattice of one-mile query circles, and the circles that meet it are queried.
- A query that fails is treated as empty.
- The whole simplified region is recorded as searched afterwards.
- Answers are always read back from the store table.

The food-desert geometry unites the "network buffers" of the stores near the frame. A network buffer is the concave hull of the roads a label-correcting walk reaches within one mile of a store, and the food desert is the frame minus that union.

Model layout (one module per file):

| file | module | models |
|---|---|---|
| wrappers.dfy | Wrappers | `Option` (null), the Java exceptions, `Result`/`Outcome`, `int` as `Int32` and its 32-bit narrowing |
| geometry.dfy | Geometry | coordinates, regions as point sets (`iset`), the geometry types the code dispatches on, envelopes, and the geometry library as an opaque `Kernel` with the facts the proofs rely on (`Sound`) |
| grocery_store.dfy | GroceryStores | the `GroceryStore` record |
| store_table.dfy | StoreTable | the `grocery_stores` table shared by both databases: insert with the UNIQUE location constraint, batch insert, selection by bounding rectangle |
| searched_area.dfy | SearchedArea | the searched-area queries shared by both databases: spatial-index hits, point containment, intersection with the searched area |
| food_desert_database.dfy | FoodDesertDb | `database.fooddesert.FoodDesertDatabase` as a class over the two tables |
| legacy_food_desert_database.dfy | LegacyFoodDesertDb | `fooddesertdatabase.FoodDesertDatabase` as a class over the two tables |
| network.dfy | Network | `Edge`, `Node` (a class: its label changes in place), and the network database as an in-memory graph |
| point_transformer.dfy | Transformers | `PointTransformer.transformCoordinates` |
| store_source.dfy | StoreSource | the store source as an oracle with the query counter of the test implementation |
| hex_tiling.dfy | HexTiling | the lattice planner of `getAllGroceryStores` (its two nested do-while loops) |
| query_handler.dfy | QueryHandler | `FoodDesertQueryHandler` |

Decisions worth knowing when reading the model:
- **Regions and the geometry library.** A region is the set of points it covers, so union, difference and intersection are `+`, `-` and `*`. The library operations are opaque function fields of `Geometry.Kernel`: buffer and circle construction, envelope, `intersects`, `contains`, `isValid`, `isEmpty`, simplification, overlay type, area, concave hull, geometry transformation, and `Math.sqrt(3)`. Properties that depend on the library behaving as documented are stated under `Sound(kernel)`. `Sound` requires, for example, that `contains` only reports points that are really there and that an envelope covers its geometry.
- **SQLite semantics.** The store table is `id INTEGER PRIMARY KEY, name, location UNIQUE`. Rows are only ever removed all at once (`truncate`), so the row at position k has rowid k + 1. `last_insert_rowid()` belongs to the connection: inserts into the searched-area table change it too, a failing insert leaves it alone, and `DELETE` does not reset it. `getInt` narrows it to 32 bits.
- **Store identifiers on duplicates.** `insertStore` of a store whose location is already taken returns the store with `last_insert_rowid()` as its id. That is the last row inserted on the connection, not the row that holds the location; `StoreTable.InsertStore` states exactly this.
- **The store source.** The store source is a function from (centre, radius) to a list of stores or a failure. The test implementation answers the empty list to every query and the exception implementation fails every query. The counter of the test implementation is kept for every source, so the number of external queries can be stated.
- **Projections.** `projSrcToDb` and `projDbToSrc` are two opaque coordinate maps.
- **Network walk termination.** The walk in `networkBuffer` is not shown to terminate in the source: nodes are re-queued whenever their real-valued label improves. The model therefore gives it a `fuel` budget of dequeues, and running out is the model's own `SearchBound` error.
- **Labels are not shortest distances.** A smaller-labelled duplicate of a node that is already expanded is dropped, because the walk only expands ids absent from `visitedSet`. The contracts therefore state admission conditions, not optimality.

Where the code and its documentation or tests disagree, the model follows the code:
- The segment-count comment at FoodDesertQueryHandler.java:37-38 claims 4·9 segments are "divisible by 5". The code uses 9 per quadrant, 36 in all, and the model uses 36.
- The older database's test expects `selectSearchedBuffer` to return null when nothing overlaps (src/test/java/fooddesertdatabase/FoodDesertDatabaseTest.java:214). The code returns an empty geometry collection, and so does the model.
- The handler's test stores a store at the unprojected query coordinate (src/test/java/fooddesertserver/FoodDesertQueryHandlerTest.java:83). `StoreAtPointEndsFoodDesert` stores it at the projected coordinate, where the handler actually looks.
- The source snapshot does not compile as a whole. The model does what the calling code evidently means:
  - The walk calls `Node.getEdges`/`setEdges`, which `Node.java` does not define. They are modelled as a cached adjacency list on the node.
  - `NetworkDatabase` builds edges with a constructor that does not exist. Edges that come from the table carry their geometry.
  - `getNearestNode` is called with a maximum distance that its definition does not take. The model is the two-argument call.
  - `FoodDesertGeometry` is built with three arguments. The model's datatype has those three fields.
  - `GroceryStore` has no `equals` override. Store values are compared by Dafny's structural equality only inside the model's proofs, never as a claim about Java's `equals`.

## Model

| member | source | states |
|---|---|---|
| Wrappers.Wrap32 | src/main/java/database/fooddesert/FoodDesertDatabase.java:135 | `getInt` keeps the low 32 bits: values in `int` range are unchanged, others differ by a multiple of 2^32 |
| Geometry.InUnionOf | src/main/java/database/fooddesert/FoodDesertDatabase.java:259 | a point lies in the aggregate `ST_Union` of rows exactly when it lies in one of them |
| Geometry.UnionOfAppend | src/main/java/database/fooddesert/FoodDesertDatabase.java:200-209 | recording one more region grows the searched area by exactly that region |
| Geometry.DifferencePoints | src/main/java/fooddesertdatabase/FoodDesertDatabase.java:346 | with a sound library, JTS `difference` covers exactly the points of the first geometry outside the second, and never more than the first |
| Geometry.IndexHitComplete | src/main/java/database/SpatialiteDatabase.java:39-44 | the spatial-index pre-filter (bounding rectangles meet) never drops a row that shares a point with the frame |
| GroceryStores.NewStore | src/main/java/fooddesertserver/GroceryStore.java:37-44 | the constructor fails with IllegalArgumentException exactly for a null location, and otherwise keeps id, name and location |
| GroceryStores.NewStoreWithoutId | src/main/java/fooddesertserver/GroceryStore.java:50-52 | the two-argument constructor yields id -1, so `hasId` is false, and fails exactly on a null location |
| GroceryStores.SetId | src/main/java/fooddesertserver/GroceryStore.java:117-123 | `setId` fails with IllegalStateException exactly when the store has an id, and otherwise returns a copy with the new id and the same name and location |
| GroceryStores.Transform | src/main/java/fooddesertserver/GroceryStore.java:129-131 | `transform` keeps id and name and applies the function to the location |
| GroceryStores.SetIdOnlyOnce | src/main/java/fooddesertserver/GroceryStore.java:117-123 | after one successful `setId` with a real id, a second `setId` fails |
| StoreTable.InsertStore | src/main/java/database/fooddesert/FoodDesertDatabase.java:102-139 | a store with an id is rejected with IllegalArgumentException; a taken location adds no row and leaves `last_insert_rowid` alone; a new location appends a row with rowid k+1; the returned store is the input with id `last_insert_rowid` |
| StoreTable.InsertStoreKeepsUnique | src/main/java/database/fooddesert/FoodDesertDatabase.java:116-127 | a successful insert keeps locations unique, adds exactly the store's location, and a fresh rowid in `int` range gives the returned store an id |
| StoreTable.InsertAllStoresEveryLocation | src/main/java/database/fooddesert/FoodDesertDatabase.java:147-154 | a batch of id-less stores succeeds and leaves exactly the old locations plus the batch's, each once |
| StoreTable.InsertAllStopsAtStoreWithId | src/main/java/database/fooddesert/FoodDesertDatabase.java:147-154 | the first store with an id makes the batch fail with IllegalArgumentException after the stores before it have been inserted |
| StoreTable.SelectInEnvelopeExact | src/main/java/database/fooddesert/FoodDesertDatabase.java:169-192 | a store is selected exactly when it is the store of a row whose location lies in the frame's bounding rectangle, read back with that row's id |
| StoreTable.SelectInEnvelopeEmpty | src/main/java/fooddesertserver/FoodDesertQueryHandler.java:97-98 | the selection is empty exactly when no stored location lies in the rectangle |
| StoreTable.SelectInEnvelopeBounds | src/main/java/database/fooddesert/FoodDesertDatabase.java:182-189 | every selected store lies in the rectangle, and there are no more selected stores than rows |
| StoreTable.FourInsertsOverTwoLocations | src/test/java/database/fooddesert/FoodDesertDatabaseTest.java:115-121 | four inserts over two locations succeed and leave two rows |
| SearchedArea.HitsCoverFrame | src/main/java/database/fooddesert/FoodDesertDatabase.java:257-262 | within the frame, the union of the spatial-index hits is the union of every searched row, and every hit is a row |
| SearchedArea.SearchedPartIsIntersection | src/main/java/database/fooddesert/FoodDesertDatabase.java:257-266 | `selectSearchedBuffer` is the frame intersected with the searched area, and an empty collection when they do not meet |
| SearchedArea.AnyContainsSound | src/main/java/database/fooddesert/FoodDesertDatabase.java:231-248 | a positive count of containing rows means the point lies in the searched area |
| SearchedArea.AnyContainsAppend | src/main/java/database/fooddesert/FoodDesertDatabase.java:231-248 | after one more region is recorded, a point counts as searched exactly when it did before or the new region contains it |
| FoodDesertDb.UnsearchedPartIsDifference | src/main/java/database/fooddesert/FoodDesertDatabase.java:275-291 | `selectUnsearchedBuffer` is the frame minus the searched area, and the frame itself when no row is hit |
| FoodDesertDb.SearchedAndUnsearchedSplitFrame | src/main/java/database/fooddesert/FoodDesertDatabase.java:257-291 | the searched and unsearched parts are disjoint and together make up the frame |
| FoodDesertDb.FrameInsideSearchedRegion | src/main/java/database/fooddesert/FoodDesertDatabase.java:275-291 | a frame inside one recorded region has an empty unsearched part |
| FoodDesertDb.FoodDesertDatabase.constructor | src/main/java/database/fooddesert/FoodDesertDatabase.java:61-88 | a new database has empty tables and no insert yet |
| FoodDesertDb.FoodDesertDatabase.InsertStore | src/main/java/database/fooddesert/FoodDesertDatabase.java:102-139 | the tables and `last_insert_rowid` become those of `StoreTable.InsertStore`; the searched table is untouched |
| FoodDesertDb.FoodDesertDatabase.InsertAll | src/main/java/database/fooddesert/FoodDesertDatabase.java:147-154 | the loop leaves the table, `last_insert_rowid` and outcome of `StoreTable.InsertAll` (insertStore in order, stopping at the first exception) |
| FoodDesertDb.FoodDesertDatabase.SelectStore | src/main/java/database/fooddesert/FoodDesertDatabase.java:169-192 | the loop returns exactly `SelectInEnvelope` of the table and the frame's envelope |
| FoodDesertDb.FoodDesertDatabase.InsertSearchedMultiPolygon | src/main/java/database/fooddesert/FoodDesertDatabase.java:200-209 | one region is appended and becomes `last_insert_rowid` |
| FoodDesertDb.FoodDesertDatabase.InsertSearchedPolygon | src/main/java/database/fooddesert/FoodDesertDatabase.java:211-214 | a polygon is recorded as the one-polygon multipolygon |
| FoodDesertDb.FoodDesertDatabase.InsertSearchedBuffer | src/main/java/database/fooddesert/FoodDesertDatabase.java:216-222 | polygons and multipolygons are recorded; anything else changes nothing |
| FoodDesertDb.FoodDesertDatabase.InSearchedBuffer | src/main/java/database/fooddesert/FoodDesertDatabase.java:231-248 | true exactly when some single recorded region contains the point; with a sound library the point is then in the searched area |
| FoodDesertDb.FoodDesertDatabase.SelectSearchedBuffer | src/main/java/database/fooddesert/FoodDesertDatabase.java:257-266 | the frame intersected with the searched area; an empty collection when nothing is recorded |
| FoodDesertDb.FoodDesertDatabase.SelectUnsearchedBuffer | src/main/java/database/fooddesert/FoodDesertDatabase.java:275-291 | the frame minus the searched area; the frame itself when nothing is recorded |
| FoodDesertDb.FoodDesertDatabase.Truncate | src/main/java/database/fooddesert/FoodDesertDatabase.java:297-304 | both tables are emptied and `last_insert_rowid` is unchanged |
| LegacyFoodDesertDb.LegacyUnsearchedAgreesWithSql | src/main/java/fooddesertdatabase/FoodDesertDatabase.java:342-347 | the Java-side difference covers the same points as the later SQL version; it strictly shrinks a frame that meets the searched area, and returns a non-empty frame that does not meet it unchanged |
| LegacyFoodDesertDb.FoodDesertDatabase.constructor | src/main/java/fooddesertdatabase/FoodDesertDatabase.java:133-158 | a new database has empty tables and no insert yet |
| LegacyFoodDesertDb.FoodDesertDatabase.InsertStore | src/main/java/fooddesertdatabase/FoodDesertDatabase.java:179-216 | as in the later database: the state of `StoreTable.InsertStore` |
| LegacyFoodDesertDb.FoodDesertDatabase.InsertAll | src/main/java/fooddesertdatabase/FoodDesertDatabase.java:224-231 | the state and outcome of `StoreTable.InsertAll` |
| LegacyFoodDesertDb.FoodDesertDatabase.SelectStore | src/main/java/fooddesertdatabase/FoodDesertDatabase.java:246-269 | exactly `SelectInEnvelope` of the table and the frame's envelope |
| LegacyFoodDesertDb.FoodDesertDatabase.InsertSearchedBuffer | src/main/java/fooddesertdatabase/FoodDesertDatabase.java:278-289 | the default-segment disc about the point is appended as one region; with a sound library and a positive radius the point is then searched |
| LegacyFoodDesertDb.FoodDesertDatabase.InSearchedBuffer | src/main/java/fooddesertdatabase/FoodDesertDatabase.java:298-315 | true exactly when some single recorded region contains the point |
| LegacyFoodDesertDb.FoodDesertDatabase.SelectSearchedBuffer | src/main/java/fooddesertdatabase/FoodDesertDatabase.java:324-333 | the frame intersected with the searched area; an empty collection (not null) when nothing is recorded |
| LegacyFoodDesertDb.FoodDesertDatabase.SelectUnsearchedBuffer | src/main/java/fooddesertdatabase/FoodDesertDatabase.java:342-347 | the frame minus the searched area; a non-empty frame comes back whole when nothing is recorded |
| LegacyFoodDesertDb.FoodDesertDatabase.Truncate | src/main/java/fooddesertdatabase/FoodDesertDatabase.java:381-388 | both tables are emptied |
| Network.EdgeHashCode | src/main/java/database/network/Edge.java:51-54 | `Objects.hash(id)` is 31 + id when that fits in `int` |
| Network.EdgeEqualityById | src/main/java/database/network/Edge.java:43-49 | edge equality is reflexive, false for null, holds exactly for equal ids, is symmetric and transitive, and agrees with the hash code |
| Network.EdgeHashCodeInjective | src/main/java/database/network/Edge.java:51-54 | two edges hash alike exactly when their ids are equal |
| Network.Node.constructor | src/main/java/database/network/Node.java:15-21 | a new node has the given id, cardinality and geometry, label +infinity and no cached edges |
| Network.Node.GetGeometry | src/main/java/database/network/Node.java:23-26 | returns a coordinate equal to the one given at construction |
| Network.Node.HashCode | src/main/java/database/network/Node.java:42-45 | the hash code is the id |
| Network.Node.SetDistance | src/main/java/database/network/Node.java:51-53 | sets the label and changes nothing else |
| Network.Node.SetEdges | src/main/java/fooddesertserver/FoodDesertQueryHandler.java:297-300 | caches the adjacency list and leaves the label alone |
| Network.NodeEqualityById | src/main/java/database/network/Node.java:36-45 | nodes are equal exactly when their ids are, whatever their labels; equality is symmetric, false for null and agrees with the hash code |
| Network.IncidentEdges | src/main/java/database/network/NetworkDatabase.java:65-69 | the edges with the node at either end, all of them and no others |
| Network.NetworkDatabase.constructor | src/main/java/database/network/NetworkDatabase.java:32-34 | the graph is the given tables and nearest-node oracle |
| Network.NetworkDatabase.GetNearestNode | src/main/java/database/network/NetworkDatabase.java:43-55 | null exactly when the nearest-node oracle finds none; otherwise a fresh node of the stored record with label +infinity (the cited query takes no radius and answers whenever the node table is non-empty; the oracle stands for the radius-limited call the handler makes) |
| Network.NetworkDatabase.GetNode | src/main/java/database/network/NetworkDatabase.java:57-63 | an SQLException exactly for an unknown id; otherwise a fresh node of the stored record |
| Network.NetworkDatabase.GetEdges | src/main/java/database/network/NetworkDatabase.java:65-85 | the node's incident edges; an SQLException exactly when it has none (an empty result set) |
| Network.TableEdgesEqualById | src/main/java/fooddesertserver/FoodDesertQueryHandler.java:288 | edges of the table are equal exactly when their ids are, so a set of them holds what the id-hashed `HashSet<Edge>` holds |
| Network.WalkStep | src/main/java/fooddesertserver/FoodDesertQueryHandler.java:303-304 | one more road at the end of a walk moves the walk's end to the road's far end, picked as the search picks `nextId`, and adds the road's length |
| Network.ReachesStep | src/main/java/fooddesertserver/FoodDesertQueryHandler.java:289-316 | a node reaches itself with length 0 (the start's label), and a walk to a node followed by one of its roads reaches the far end with the summed length |
| Network.WalkLengthBound | src/main/java/database/network/Edge.java:31-33 | over roads of non-negative length a walk is no shorter than its last road |
| Transformers.MapCoordsPointwise | src/main/java/fooddesertserver/PointTransformer.java:29-32 | the output has the input's length and element i is the transform of input element i |
| Transformers.MapCoordsAppend | src/main/java/fooddesertserver/PointTransformer.java:30-32 | the transformation distributes over concatenation |
| Transformers.MapCoordsCompose | src/main/java/fooddesertserver/PointTransformer.java:28-34 | transforming by f and then by g is transforming once by their composition |
| Transformers.PointTransformer.constructor | src/main/java/fooddesertserver/PointTransformer.java:23-25 | keeps the transformation |
| Transformers.PointTransformer.TransformCoordinates | src/main/java/fooddesertserver/PointTransformer.java:28-34 | fills a fresh array with the transformed coordinates in order |
| StoreSource.GroceryStoreSource.TestImpl | src/test/java/grocerystoresource/GroceryStoreSourceTestImpl.java:16-18 | a new test source has made no query and answers every query with the empty list |
| StoreSource.GroceryStoreSource.ExceptionImpl | src/test/java/grocerystoresource/GroceryStoreSourceExceptionImpl.java:9-12 | every query of the exception source fails |
| StoreSource.GroceryStoreSource.constructor | src/main/java/grocerystoresource/GroceryStoreSource.java:23-24 | any other source, given by its answers, with no query made yet |
| StoreSource.GroceryStoreSource.NearbyQueryFor | src/test/java/grocerystoresource/GroceryStoreSourceTestImpl.java:25-29 | one more query is counted and logged, and the oracle's answer is returned |
| StoreSource.GroceryStoreSource.GetNumQueries | src/test/java/grocerystoresource/GroceryStoreSourceTestImpl.java:35-37 | the number of queries made so far, read without changing anything |
| HexTiling.ColumnShape | src/main/java/fooddesertserver/FoodDesertQueryHandler.java:185-206 | a row evaluates at least one candidate; the m-th one is the lattice point of column j+m; all but the last lie at or below maxY and the last lies above it |
| HexTiling.RowsStop | src/main/java/fooddesertserver/FoodDesertQueryHandler.java:180-208 | rows are evaluated up to and including the first row whose starting point leaves the rectangle, and no further |
| HexTiling.LatticeForm | src/main/java/fooddesertserver/FoodDesertQueryHandler.java:180-187 | every candidate is (minX + 1.5·r·i, minY + (s/2)·r·i + s·r·j) with 0 <= i and j >= -(i/2) |
| HexTiling.HexSpacing | src/main/java/fooddesertserver/FoodDesertQueryHandler.java:181-187 | with s·s = 3 a candidate is at distance √3·r from its neighbour in its row and from its two neighbours in the next row |
| HexTiling.SelectAppend | src/main/java/fooddesertserver/FoodDesertQueryHandler.java:201-203 | keeping candidates distributes over concatenation |
| HexTiling.SelectExact | src/main/java/fooddesertserver/FoodDesertQueryHandler.java:199-203 | a centre is planned exactly when it is the projection of a candidate whose 36-segment circle intersects the region |
| HexTiling.EmptyRegionPlansNothing | src/main/java/fooddesertserver/FoodDesertQueryHandler.java:199-203 | with a sound library nothing is planned for an empty region |
| HexTiling.SelectColumnStep | src/main/java/fooddesertserver/FoodDesertQueryHandler.java:186-206 | one iteration of the inner loop: the candidate at column j is kept or dropped, then the rest of the row follows |
| HexTiling.SelectRowsStep | src/main/java/fooddesertserver/FoodDesertQueryHandler.java:180-208 | one iteration of the outer loop: row i, then the later rows exactly when row i starts in the rectangle |
| HexTiling.PlanRow | src/main/java/fooddesertserver/FoodDesertQueryHandler.java:185-206 | the inner do-while loop appends exactly the kept candidates of the row, projected back, in order |
| HexTiling.PlanQueryCentres | src/main/java/fooddesertserver/FoodDesertQueryHandler.java:177-208 | the two loops plan exactly the kept candidates of the whole lattice, projected back, in evaluation order |
| QueryHandler.JavaIntCast | src/main/java/fooddesertserver/FoodDesertQueryHandler.java:113 | the `(int)` cast truncates toward zero (and saturates at the `int` range) |
| QueryHandler.QueryRadius | src/main/java/fooddesertserver/FoodDesertQueryHandler.java:355-358 | the buffer radius is positive and the store source is asked for 1609 metres |
| QueryHandler.TransformStores | src/main/java/fooddesertserver/FoodDesertQueryHandler.java:116-119 | every answered store is projected, in order |
| QueryHandler.AnsweredExact | src/main/java/fooddesertserver/FoodDesertQueryHandler.java:115-123 | one query contributes exactly the projections of the stores it answered, and nothing when it throws |
| QueryHandler.GatheredSound | src/main/java/fooddesertserver/FoodDesertQueryHandler.java:112-125 | every collected store was answered by one of the queries |
| QueryHandler.GatheredComplete | src/main/java/fooddesertserver/FoodDesertQueryHandler.java:112-125 | every store a query answered is collected, however the other queries fail |
| QueryHandler.GatheredExact | src/main/java/fooddesertserver/FoodDesertQueryHandler.java:112-125 | a store is collected exactly when some query answered it |
| QueryHandler.GatheredFromSilentSource | src/main/java/fooddesertserver/FoodDesertQueryHandler.java:121-123 | a source that fails or finds nothing everywhere contributes no store |
| QueryHandler.QueriesForShape | src/main/java/fooddesertserver/FoodDesertQueryHandler.java:112-116 | one query per centre, in order, each with radius 1609 |
| QueryHandler.SearchCoversFrame | src/main/java/fooddesertserver/FoodDesertQueryHandler.java:213-214 | after the simplified unsearched region is recorded, the whole frame is searched, provided the simplification keeps the unsearched points and stays polygonal |
| QueryHandler.AdmittedIsShortRoadIntoBounds | src/main/java/fooddesertserver/FoodDesertQueryHandler.java:312-317 | an edge the search may record is a road of the network shorter than the radius with an end inside the bounds |
| QueryHandler.ExtendAdmits | src/main/java/fooddesertserver/FoodDesertQueryHandler.java:303-317 | a road at a node reached within d, whose far end is a stored node inside the bounds and with d plus its length below the radius, may be recorded |
| QueryHandler.QueueingKeepsInvariant | src/main/java/fooddesertserver/FoodDesertQueryHandler.java:315-317 | queueing a labelled node and recording an admitted edge keep the search invariant |
| QueryHandler.FoodDesertQueryHandler.constructor | src/main/java/fooddesertserver/FoodDesertQueryHandler.java:49-66 | keeps the databases, the source and the two projections |
| QueryHandler.FoodDesertQueryHandler.IsInFoodDesertUnchecked | src/main/java/fooddesertserver/FoodDesertQueryHandler.java:92-99 | true exactly when no stored store lies in the rectangle of the one-mile disc about the projected point |
| QueryHandler.FoodDesertQueryHandler.InsertAllPlacesQueries | src/main/java/fooddesertserver/FoodDesertQueryHandler.java:107-128 | one query per centre with radius 1609; a failing query is swallowed; all collected stores go to one `insertAll`, whose outcome is passed on; the searched table is untouched |
| QueryHandler.FoodDesertQueryHandler.IsInFoodDesert | src/main/java/fooddesertserver/FoodDesertQueryHandler.java:74-85 | a searched point changes nothing; otherwise the point is queried once, and after a successful insert its disc is recorded; a successful answer is true exactly when no store lies near; the point is then searched |
| QueryHandler.FoodDesertQueryHandler.AskTwice | src/main/java/fooddesertserver/FoodDesertQueryHandler.java:76-83 | after a successful answer, asking again about the same point gives the same answer, and the two calls together make one external query when the point was unsearched and none when it was searched |
| QueryHandler.FoodDesertQueryHandler.StoreAtPointEndsFoodDesert | src/test/java/fooddesertserver/FoodDesertQueryHandlerTest.java:76-86 | after a successful answer, a store inserted at the point makes the next answer false |
| QueryHandler.FoodDesertQueryHandler.GetAllGroceryStores | src/main/java/fooddesertserver/FoodDesertQueryHandler.java:149-221 | `StoresGathered`: an invalid simplified unsearched region throws IllegalStateException and changes nothing; otherwise exactly the planned centres are queried, the answers go to one batch insert whose failure is passed on, the whole region is recorded after a successful insert, and the result is the stores in the projected frame's rectangle, projected back |
| QueryHandler.FoodDesertQueryHandler.SearchTwice | src/main/java/fooddesertserver/FoodDesertQueryHandler.java:149-221 | when the simplification keeps the unsearched points, stays polygonal and leaves an empty region empty, after a successful search of a frame a second search of it makes no external query and answers the same stores (or IllegalStateException for an invalid empty simplification) |
| QueryHandler.FoodDesertQueryHandler.Relabel | src/main/java/fooddesertserver/FoodDesertQueryHandler.java:305-311 | an expanded node's label is replaced only by a strictly smaller one, and the node is then removed from the map and queued again; only that node's label may change, no edge cache changes, and the search invariant is kept |
| QueryHandler.FoodDesertQueryHandler.Discover | src/main/java/fooddesertserver/FoodDesertQueryHandler.java:312-318 | for a far end not in the map: when the label through the node is below the radius, an unknown far end is an SQLException, and a far end in the bounds is queued as a new node with that label and its edge recorded; otherwise nothing changes |
| QueryHandler.FoodDesertQueryHandler.RelaxEdge | src/main/java/fooddesertserver/FoodDesertQueryHandler.java:303-319 | with d the label through the node and `nextId` the far end: an expanded far end records nothing and is relabelled to d, removed from the map and re-queued exactly when d is smaller; otherwise, when d is below the radius and the far end is a stored node in the bounds, a new node for it is queued with label d and the edge is recorded, an unknown far end is an SQLException, and in every other case nothing changes; only the far end's node may be written, so every other label and every edge cache stays as it was; the search invariant is kept |
| QueryHandler.FoodDesertQueryHandler.RelaxEdges | src/main/java/fooddesertserver/FoodDesertQueryHandler.java:302-320 | relaxing every edge of the node in order keeps the search invariant and the node's place in the map, and records only edges among the node's; no edge cache changes, and only labels of far ends of those edges may change |
| QueryHandler.FoodDesertQueryHandler.Expand | src/main/java/fooddesertserver/FoodDesertQueryHandler.java:294-320 | a node not yet in the map is entered in it, its edges are fetched unless cached (a node without edges is an SQLException) and cached on it, and they are relaxed; the node stays in the map, only edges at it are recorded, and the invariant is kept; every other expanded node keeps its edge cache, and only far ends of the node's edges may get a new label |
| QueryHandler.FoodDesertQueryHandler.CacheEdges | src/main/java/fooddesertserver/FoodDesertQueryHandler.java:297-300 | the node's edges are those cached or, when nothing is cached, those fetched and then cached; the result is an SQLException exactly when the node has no edges; the label is untouched |
| QueryHandler.FoodDesertQueryHandler.Explore | src/main/java/fooddesertserver/FoodDesertQueryHandler.java:286-323 | from a start labelled 0, every recorded edge is the last road of a walk from the start, shorter than the radius, that ends at a stored node inside the bounds; an SQLException means the start has no edges or an edge dangles |
| QueryHandler.FoodDesertQueryHandler.NetworkBuffer | src/main/java/fooddesertserver/FoodDesertQueryHandler.java:274-338 | `IsNetworkBuffer`: an empty collection when no node is near the centre; otherwise the concave hull, threshold 100, of the lines of a set of edges each ending a walk from the node nearest the centre that stays below the radius and reaches a node inside the bounds |
| QueryHandler.FoodDesertQueryHandler.GetFoodDesertGeometry | src/main/java/fooddesertserver/FoodDesertQueryHandler.java:252-272 | the stores of the buffered frame are gathered as `StoresGathered` says (and its failure is passed on); each returned store in turn gets a buffer satisfying `IsNetworkBuffer` about its projected location within the buffered frame; the food desert is the projected frame minus the union of those buffers, projected back, with that difference's area, which with a sound library is no larger than the frame's |

## Left out

- SQL, JDBC and SpatiaLite plumbing: connections, extension loading, prepared statements and result-set reading. These are I/O over a backend outside the model. The tables are in-memory state, and SQL failures other than the modelled empty results are not modelled.
- Transactions: `setAutoCommit` and `commit` in `insertAll` and `networkBuffer` are left out. The model is sequential and has no rollback.
- Concurrency: the ThreadLocal WKT readers and projection scratch objects are per-thread state and are left out.
- The coordinate projections (Proj4j) are opaque functions, so no round-trip between the two systems is claimed.
- JTS and SpatiaLite numerics are opaque, and reals stand for doubles throughout. This covers buffer polygonisation, the VW simplifier, the concave hull, areas, spatial predicates and floating-point rounding.
- The external places clients (Google Places, Nominatim) are network I/O. They are modelled as the store-source oracle.
- HTTP routes, the command line, the browser map, JSON serialisers and `getVoronoiDiagram`: these are output glue around the core.
- The `Envelope` overloads (`getAllGroceryStore(Envelope)`, `getFoodDesertGeometry(Envelope)`) only convert a rectangle into a geometry. The model starts from the geometry.
- `getBufferRadiusMeters` ignores its point, so it is the constant `BufferRadiusMeters`.
- `getEpsg` is not part of this model (projections are opaque).
- QueryHandler.FoodDesertQueryHandler.Explore: the walk carries a `fuel` budget of dequeues and fails with `SearchBound` when it runs out, because its termination is not established. Labels are stated to be lengths of walks from the start, not shortest distances.
- QueryHandler.FoodDesertQueryHandler.NetworkBuffer: states that every edge of the hull's set ends a short walk from the nearest node into the bounds, not that every such edge is in the set; the walk can miss some, because it drops a better-labelled duplicate of an expanded node.
- QueryHandler.FoodDesertQueryHandler.GetFoodDesertGeometry: each network buffer is pinned down only as far as `IsNetworkBuffer` pins it (see NetworkBuffer). A failing network buffer makes the whole call fail, as its exception does in the source.
- Network.NetworkDatabase.Valid: road lengths are assumed non-negative (the walk's labels rely on it); the source reads them from the edge table without checking.
- The handler's geometry projection (a `GeometryTransformer` over every coordinate sequence) is the opaque `Kernel.transform`. It is not tied to `PointTransformer.TransformCoordinates` in the model, so the PointTransformer lemmas describe the per-sequence step on its own.
- StoreSource.GroceryStoreSource.NearbyQueryFor: the counter is a mathematical integer. The test implementation's `int` counter would wrap after 2^31 queries.
- Network.Node: `getCardinality` and `getId` are plain field reads (`cardinality`, `id`), and nothing about them is stated.
