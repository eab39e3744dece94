/** The earlier SpatiaLite food-desert database (`fooddesertdatabase`): the same grocery-store
    table, a searched-area table of single polygons filled from a centre and a radius, and an
    unsearched area computed on the Java side as a difference. */
module LegacyFoodDesertDb {
  import opened Wrappers
  import opened Geometry
  import opened GroceryStores
  import opened StoreTable
  import opened SearchedArea
  import FoodDesertDb

  /** `selectUnsearchedBuffer`: `searchFrame.difference(selectSearchedBuffer(searchFrame))`,
      where JTS returns an empty result for an empty frame and a copy of the frame when the
      subtracted geometry is empty. */
  function LegacyUnsearchedPart(k: Kernel, rs: seq<Region>, frame: Geometry): Geometry
  {
    Difference(k, frame, SearchedPart(k, rs, frame).points)
  }

  /** The Java-side difference covers the same points as the later SQL `CASE` query; a frame
      that meets the searched area strictly shrinks, and one that does not comes back whole. */
  lemma LegacyUnsearchedAgreesWithSql(k: Kernel, rs: seq<Region>, frame: Geometry)
    ensures Sound(k) ==>
              LegacyUnsearchedPart(k, rs, frame).points == FoodDesertDb.UnsearchedPart(k, rs, frame).points
    ensures Sound(k) ==> LegacyUnsearchedPart(k, rs, frame).points == frame.points - UnionOf(rs)
    ensures Sound(k) && frame.points * UnionOf(rs) != iset{} ==>
              LegacyUnsearchedPart(k, rs, frame).points < frame.points
    ensures Sound(k) && frame.points != iset{} && frame.points * UnionOf(rs) == iset{} ==>
              LegacyUnsearchedPart(k, rs, frame) == frame
  {
    if Sound(k) {
      SearchedPartIsIntersection(k, rs, frame);
      FoodDesertDb.UnsearchedPartIsDifference(k, rs, frame);
      var sp := SearchedPart(k, rs, frame).points;
      if !k.isEmpty(frame.points) && k.isEmpty(sp) {
        assert frame.points == frame.points - UnionOf(rs) by {
          forall p | p in frame.points ensures p !in UnionOf(rs) {
            assert p !in sp;
          }
        }
      }
      assert LegacyUnsearchedPart(k, rs, frame).points == frame.points - UnionOf(rs);
      if frame.points * UnionOf(rs) != iset{} {
        var p :| p in frame.points * UnionOf(rs);
        assert p !in LegacyUnsearchedPart(k, rs, frame).points;
      }
    }
  }

  class FoodDesertDatabase {
    /** The geometry library SpatiaLite and JTS provide. */
    const kernel: Kernel
    /** The `grocery_stores` table. */
    var stores: seq<StoreRow>
    /** The `searched_area` table's polygons, row k having rowid k + 1. */
    var searched: seq<Region>
    /** The connection's `last_insert_rowid()`. */
    var lastInsertRowId: int

    ghost predicate Valid()
      reads this
    {
      UniqueLocations(stores) && lastInsertRowId >= 0
    }

    /** `createDatabase` on a new file. */
    constructor (kernel: Kernel)
      ensures Valid()
      ensures this.kernel == kernel && stores == [] && searched == [] && lastInsertRowId == 0
    {
      this.kernel := kernel;
      stores := [];
      searched := [];
      lastInsertRowId := 0;
    }

    method InsertStore(store: GroceryStore) returns (r: Result<GroceryStore>)
      requires Valid()
      modifies this
      ensures Valid()
      ensures searched == old(searched)
      ensures match StoreTable.InsertStore(old(stores), old(lastInsertRowId), store)
              case Err(e) => r == Err(e) && stores == old(stores) && lastInsertRowId == old(lastInsertRowId)
              case Ok(ins) => r == Ok(ins.stored) && stores == ins.rows && lastInsertRowId == ins.lastInsertRowId
    {
      if HasId(store) {
        return Err(IllegalArgumentException);
      }
      if !HasLocation(stores, store.location) {
        InsertStoreKeepsUnique(stores, lastInsertRowId, store);
        stores := stores + [StoreRow(store.name, store.location)];
        lastInsertRowId := |stores|;
      }
      r := Ok(SetId(store, Wrap32(lastInsertRowId)).value);
    }

    method InsertAll(batch: seq<GroceryStore>) returns (outcome: Outcome)
      requires Valid()
      modifies this
      ensures Valid()
      ensures searched == old(searched)
      ensures StoreTable.InsertAll(old(stores), old(lastInsertRowId), batch) ==
                Batch(stores, lastInsertRowId, outcome)
    {
      var i := 0;
      while i < |batch|
        invariant i <= |batch| && Valid() && searched == old(searched)
        invariant StoreTable.InsertAll(old(stores), old(lastInsertRowId), batch) ==
                    StoreTable.InsertAll(stores, lastInsertRowId, batch[i..])
      {
        assert batch[i..][0] == batch[i] && batch[i..][1..] == batch[i + 1..];
        var r := InsertStore(batch[i]);
        if r.Err? {
          return Fail(r.error);
        }
        i := i + 1;
      }
      return Pass;
    }

    /** `selectStore`: every stored store whose location lies in the frame's bounding
        rectangle, with its id. */
    method SelectStore(searchFrame: Geometry) returns (selected: seq<GroceryStore>)
      ensures selected == SelectInEnvelope(stores, kernel.envelope(searchFrame.points))
    {
      var e := kernel.envelope(searchFrame.points);
      selected := [];
      var k := 0;
      while k < |stores|
        invariant k <= |stores|
        invariant selected == SelectInEnvelope(stores[..k], e)
      {
        var row := stores[k];
        assert stores[..k + 1][..k] == stores[..k];
        if EnvelopeContains(e, row.location.x, row.location.y) {
          selected := selected + [GroceryStore(Wrap32(RowIdAt(k)), row.name, row.location)];
        }
        k := k + 1;
      }
      assert stores[..k] == stores;
    }

    /** `insertSearchedBuffer(Coordinate, double)`: records the point's buffer of that radius,
        drawn with the library's default segment count. */
    method InsertSearchedBuffer(center: Coord, radius: real)
      requires Valid()
      modifies this
      ensures Valid()
      ensures searched == old(searched) + [kernel.circle(center, radius, DefaultQuadrantSegments)]
      ensures lastInsertRowId == |searched| && stores == old(stores)
      ensures Sound(kernel) && radius > 0.0 ==> InSearchedBuffer(center)
    {
      searched := searched + [kernel.circle(center, radius, DefaultQuadrantSegments)];
      lastInsertRowId := |searched|;
      assert searched[|searched| - 1] == kernel.circle(center, radius, DefaultQuadrantSegments);
    }

    /** `inSearchedBuffer`: some recorded polygon contains the point; with a sound library the
        point then lies in the searched area. */
    function InSearchedBuffer(query: Coord): (r: bool)
      reads this
      ensures r <==> exists i | 0 <= i < |searched| :: kernel.contains(searched[i], query)
      ensures r && Sound(kernel) ==> query in UnionOf(searched)
    {
      AnyContainsSound(kernel, searched, query);
      AnyContains(kernel, searched, query)
    }

    /** `selectSearchedBuffer`: the part of the frame inside the searched area. */
    function SelectSearchedBuffer(searchFrame: Geometry): (g: Geometry)
      reads this
      ensures Sound(kernel) ==> g.points == searchFrame.points * UnionOf(searched)
      ensures searched == [] ==> g == EmptyCollection
    {
      SearchedPartIsIntersection(kernel, searched, searchFrame);
      SearchedPart(kernel, searched, searchFrame)
    }

    /** `selectUnsearchedBuffer`: the part of the frame outside the searched area. */
    function SelectUnsearchedBuffer(searchFrame: Geometry): (g: Geometry)
      reads this
      ensures Sound(kernel) ==> g.points == searchFrame.points - UnionOf(searched)
      ensures Sound(kernel) && searched == [] && searchFrame.points != iset{} ==> g == searchFrame
    {
      LegacyUnsearchedAgreesWithSql(kernel, searched, searchFrame);
      LegacyUnsearchedPart(kernel, searched, searchFrame)
    }

    /** `truncate`: both tables emptied; `DELETE` does not touch `last_insert_rowid()`. */
    method Truncate()
      requires Valid()
      modifies this
      ensures Valid()
      ensures stores == [] && searched == [] && lastInsertRowId == old(lastInsertRowId)
    {
      stores := [];
      searched := [];
    }
  }
}
