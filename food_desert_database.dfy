/** The SpatiaLite food-desert database (`database.fooddesert`): a table of grocery stores and a
    table of already-searched areas stored as multipolygons. The connection's state is the two
    tables and `last_insert_rowid()`. */
module FoodDesertDb {
  import opened Wrappers
  import opened Geometry
  import opened GroceryStores
  import opened StoreTable
  import opened SearchedArea

  /** `selectUnsearchedBuffer`: when the union over the index hits is NULL (no hits) the frame's
      own text is returned and read back, otherwise the difference of the frame and that union,
      with an empty result read back as an empty collection. */
  function UnsearchedPart(k: Kernel, rs: seq<Region>, frame: Geometry): Geometry
  {
    var hits := Hits(k, rs, frame.points);
    if hits == [] then frame
    else
      var pts := frame.points - UnionOf(hits);
      if k.isEmpty(pts) then EmptyCollection else Geometry(k.overlayType(pts), pts)
  }

  /** The unsearched part is the frame minus the searched area; the frame comes back unchanged
      when no searched region meets it. */
  lemma UnsearchedPartIsDifference(k: Kernel, rs: seq<Region>, frame: Geometry)
    ensures Sound(k) ==> UnsearchedPart(k, rs, frame).points == frame.points - UnionOf(rs)
    ensures Hits(k, rs, frame.points) == [] ==> UnsearchedPart(k, rs, frame) == frame
  {
    if Sound(k) {
      HitsCoverFrame(k, rs, frame.points);
      assert frame.points - UnionOf(Hits(k, rs, frame.points)) == frame.points - UnionOf(rs);
    }
  }

  /** The searched and unsearched parts split the frame: they share no point and together they
      are the frame. */
  lemma SearchedAndUnsearchedSplitFrame(k: Kernel, rs: seq<Region>, frame: Geometry)
    requires Sound(k)
    ensures SearchedPart(k, rs, frame).points * UnsearchedPart(k, rs, frame).points == iset{}
    ensures SearchedPart(k, rs, frame).points + UnsearchedPart(k, rs, frame).points == frame.points
  {
    SearchedPartIsIntersection(k, rs, frame);
    UnsearchedPartIsDifference(k, rs, frame);
  }

  /** A frame inside one recorded region has nothing left to search. */
  lemma FrameInsideSearchedRegion(k: Kernel, rs: seq<Region>, frame: Geometry, i: nat)
    requires Sound(k)
    requires i < |rs| && frame.points <= rs[i]
    ensures UnsearchedPart(k, rs, frame) == EmptyCollection || Hits(k, rs, frame.points) == []
    ensures UnsearchedPart(k, rs, frame).points == iset{}
  {
    UnsearchedPartIsDifference(k, rs, frame);
    forall p | p in frame.points ensures p in UnionOf(rs) {
      InUnionOf(rs, p);
    }
  }

  class FoodDesertDatabase {
    /** The geometry library SpatiaLite and JTS provide. */
    const kernel: Kernel
    /** The `grocery_stores` table. */
    var stores: seq<StoreRow>
    /** The `searched_area` table's buffers, row k having rowid k + 1. */
    var searched: seq<Region>
    /** The connection's `last_insert_rowid()`. */
    var lastInsertRowId: int

    ghost predicate Valid()
      reads this
    {
      UniqueLocations(stores) && lastInsertRowId >= 0
    }

    /** `createDatabase` on a new file: both tables empty, nothing inserted yet. */
    constructor (kernel: Kernel)
      ensures Valid()
      ensures this.kernel == kernel && stores == [] && searched == [] && lastInsertRowId == 0
    {
      this.kernel := kernel;
      stores := [];
      searched := [];
      lastInsertRowId := 0;
    }

    method InsertStore(store: GroceryStore) returns (r: Result<GroceryStore>)
      requires Valid()
      modifies this
      ensures Valid()
      ensures searched == old(searched)
      ensures match StoreTable.InsertStore(old(stores), old(lastInsertRowId), store)
              case Err(e) => r == Err(e) && stores == old(stores) && lastInsertRowId == old(lastInsertRowId)
              case Ok(ins) => r == Ok(ins.stored) && stores == ins.rows && lastInsertRowId == ins.lastInsertRowId
    {
      if HasId(store) {
        return Err(IllegalArgumentException);
      }
      if !HasLocation(stores, store.location) {
        InsertStoreKeepsUnique(stores, lastInsertRowId, store);
        stores := stores + [StoreRow(store.name, store.location)];
        lastInsertRowId := |stores|;
      }
      r := Ok(SetId(store, Wrap32(lastInsertRowId)).value);
    }

    method InsertAll(batch: seq<GroceryStore>) returns (outcome: Outcome)
      requires Valid()
      modifies this
      ensures Valid()
      ensures searched == old(searched)
      ensures StoreTable.InsertAll(old(stores), old(lastInsertRowId), batch) ==
                Batch(stores, lastInsertRowId, outcome)
    {
      var i := 0;
      while i < |batch|
        invariant i <= |batch| && Valid() && searched == old(searched)
        invariant StoreTable.InsertAll(old(stores), old(lastInsertRowId), batch) ==
                    StoreTable.InsertAll(stores, lastInsertRowId, batch[i..])
      {
        assert batch[i..][0] == batch[i] && batch[i..][1..] == batch[i + 1..];
        var r := InsertStore(batch[i]);
        if r.Err? {
          return Fail(r.error);
        }
        i := i + 1;
      }
      return Pass;
    }

    /** `selectStore`: every stored store whose location lies in the frame's bounding
        rectangle, with its id. */
    method SelectStore(searchFrame: Geometry) returns (selected: seq<GroceryStore>)
      ensures selected == SelectInEnvelope(stores, kernel.envelope(searchFrame.points))
    {
      var e := kernel.envelope(searchFrame.points);
      selected := [];
      var k := 0;
      while k < |stores|
        invariant k <= |stores|
        invariant selected == SelectInEnvelope(stores[..k], e)
      {
        var row := stores[k];
        assert stores[..k + 1][..k] == stores[..k];
        if EnvelopeContains(e, row.location.x, row.location.y) {
          selected := selected + [GroceryStore(Wrap32(RowIdAt(k)), row.name, row.location)];
        }
        k := k + 1;
      }
      assert stores[..k] == stores;
    }

    /** `insertSearchedBuffer(MultiPolygon)`. */
    method InsertSearchedMultiPolygon(buffer: Geometry)
      requires buffer.kind == MultiPolygon
      requires Valid()
      modifies this
      ensures Valid()
      ensures searched == old(searched) + [buffer.points] && lastInsertRowId == |searched|
      ensures stores == old(stores)
    {
      searched := searched + [buffer.points];
      lastInsertRowId := |searched|;
    }

    /** `insertSearchedBuffer(Polygon)`: stored as the one-polygon multipolygon. */
    method InsertSearchedPolygon(buffer: Geometry)
      requires buffer.kind == Polygon
      requires Valid()
      modifies this
      ensures Valid()
      ensures searched == old(searched) + [buffer.points] && lastInsertRowId == |searched|
      ensures stores == old(stores)
    {
      InsertSearchedMultiPolygon(Geometry(MultiPolygon, buffer.points));
    }

    /** `insertSearchedBuffer(Geometry)`: polygons and multipolygons are recorded, any other
        geometry is silently dropped. */
    method InsertSearchedBuffer(buffer: Geometry)
      requires Valid()
      modifies this
      ensures Valid()
      ensures buffer.kind != Other ==> searched == old(searched) + [buffer.points] && lastInsertRowId == |searched|
      ensures buffer.kind == Other ==> searched == old(searched) && lastInsertRowId == old(lastInsertRowId)
      ensures stores == old(stores)
    {
      if buffer.kind == MultiPolygon {
        InsertSearchedMultiPolygon(buffer);
      } else if buffer.kind == Polygon {
        InsertSearchedPolygon(buffer);
      }
    }

    /** `inSearchedBuffer`: some recorded region contains the point; with a sound library the
        point then lies in the searched area. */
    function InSearchedBuffer(query: Coord): (r: bool)
      reads this
      ensures r <==> exists i | 0 <= i < |searched| :: kernel.contains(searched[i], query)
      ensures r && Sound(kernel) ==> query in UnionOf(searched)
    {
      AnyContainsSound(kernel, searched, query);
      AnyContains(kernel, searched, query)
    }

    /** `selectSearchedBuffer`: the part of the frame inside the searched area. */
    function SelectSearchedBuffer(searchFrame: Geometry): (g: Geometry)
      reads this
      ensures Sound(kernel) ==> g.points == searchFrame.points * UnionOf(searched)
      ensures searched == [] ==> g == EmptyCollection
    {
      SearchedPartIsIntersection(kernel, searched, searchFrame);
      SearchedPart(kernel, searched, searchFrame)
    }

    /** `selectUnsearchedBuffer`: the part of the frame outside the searched area. */
    function SelectUnsearchedBuffer(searchFrame: Geometry): (g: Geometry)
      reads this
      ensures Sound(kernel) ==> g.points == searchFrame.points - UnionOf(searched)
      ensures searched == [] ==> g == searchFrame
    {
      UnsearchedPartIsDifference(kernel, searched, searchFrame);
      UnsearchedPart(kernel, searched, searchFrame)
    }

    /** `truncate`: both tables emptied; `DELETE` does not touch `last_insert_rowid()`. */
    method Truncate()
      requires Valid()
      modifies this
      ensures Valid()
      ensures stores == [] && searched == [] && lastInsertRowId == old(lastInsertRowId)
    {
      stores := [];
      searched := [];
    }
  }
}
