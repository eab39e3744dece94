/** The `grocery_stores` table as in-memory rows, shared by both versions of the food-desert
    database (their store code is identical).

    The table is `id INTEGER NOT NULL PRIMARY KEY, name TEXT, location UNIQUE`. SQLite gives a
    new row the largest rowid plus one (1 in an empty table), and rows are only ever removed all
    at once (truncate), so the row at position k has rowid k + 1. The connection's
    `last_insert_rowid()` is kept beside the rows: a failed insert leaves it alone. */
module StoreTable {
  import opened Wrappers
  import opened Geometry
  import opened GroceryStores

  datatype StoreRow = StoreRow(name: Option<string>, location: Coord)

  /** The rowid SQLite assigns to the row at position k. */
  function RowIdAt(k: nat): int
  {
    k + 1
  }

  /** Some row already holds this location (the UNIQUE constraint would fail). */
  predicate HasLocation(rows: seq<StoreRow>, loc: Coord)
  {
    exists k | 0 <= k < |rows| :: rows[k].location == loc
  }

  /** The UNIQUE constraint on `location`. */
  ghost predicate UniqueLocations(rows: seq<StoreRow>)
  {
    forall a, b | 0 <= a < b < |rows| :: rows[a].location != rows[b].location
  }

  ghost function Locations(rows: seq<StoreRow>): set<Coord>
  {
    set k | 0 <= k < |rows| :: rows[k].location
  }

  /** The store a `SELECT` reads back from row k (`getInt` truncates the rowid to `int`). */
  function StoreAt(rows: seq<StoreRow>, k: nat): GroceryStore
    requires k < |rows|
  {
    GroceryStore(Wrap32(RowIdAt(k)), rows[k].name, rows[k].location)
  }

  /** The table and connection state after one `insertStore`, and the store it returns. */
  datatype Insertion = Insertion(rows: seq<StoreRow>, lastInsertRowId: int, stored: GroceryStore)

  /** `insertStore`: reject a store that already has an id; otherwise insert it unless its
      location is taken (the constraint failure is swallowed), then return the store with the
      id read from `last_insert_rowid()` -- for a duplicate that is whatever row was inserted
      last on the connection, not the row that holds the location. */
  function InsertStore(rows: seq<StoreRow>, lastInsertRowId: int, s: GroceryStore): (r: Result<Insertion>)
    ensures HasId(s) <==> r == Err(IllegalArgumentException)
    ensures r.Ok? && HasLocation(rows, s.location) ==>
              r.value.rows == rows && r.value.lastInsertRowId == lastInsertRowId
    ensures r.Ok? && !HasLocation(rows, s.location) ==>
              r.value.rows == rows + [StoreRow(s.name, s.location)] && r.value.lastInsertRowId == |rows| + 1
    ensures r.Ok? ==> r.value.stored == s.(id := Wrap32(r.value.lastInsertRowId))
  {
    if HasId(s) then Err(IllegalArgumentException)
    else
      var (rows', last') :=
        if HasLocation(rows, s.location) then (rows, lastInsertRowId)
        else (rows + [StoreRow(s.name, s.location)], RowIdAt(|rows|));
      Ok(Insertion(rows', last', SetId(s, Wrap32(last')).value))
  }

  /** A successful insert keeps the locations unique and a fresh row's rowid in `int` range
      gives the returned store a real id. */
  lemma InsertStoreKeepsUnique(rows: seq<StoreRow>, last: int, s: GroceryStore)
    requires UniqueLocations(rows)
    requires InsertStore(rows, last, s).Ok?
    ensures UniqueLocations(InsertStore(rows, last, s).value.rows)
    ensures Locations(InsertStore(rows, last, s).value.rows) == Locations(rows) + {s.location}
    ensures 0 <= InsertStore(rows, last, s).value.lastInsertRowId <= Int32Max ==>
              HasId(InsertStore(rows, last, s).value.stored)
  {
    var rows' := InsertStore(rows, last, s).value.rows;
    if HasLocation(rows, s.location) {
      var k :| 0 <= k < |rows| && rows[k].location == s.location;
      assert s.location in Locations(rows);
    } else {
      forall a, b | 0 <= a < b < |rows'| ensures rows'[a].location != rows'[b].location {
        if b == |rows| {
          assert rows'[a] == rows[a];
        }
      }
      forall c | c in Locations(rows') ensures c in Locations(rows) + {s.location} {
        var k :| 0 <= k < |rows'| && rows'[k].location == c;
        if k < |rows| { assert rows[k] == rows'[k]; }
      }
      forall c | c in Locations(rows) + {s.location} ensures c in Locations(rows') {
        if c == s.location {
          assert rows'[|rows|].location == c;
        } else {
          var k :| 0 <= k < |rows| && rows[k].location == c;
          assert rows'[k].location == c;
        }
      }
    }
  }

  /** The tables and the outcome after `insertAll`. */
  datatype Batch = Batch(rows: seq<StoreRow>, lastInsertRowId: int, outcome: Outcome)

  /** `insertAll`: `insertStore` on each store in iteration order; the first store that already
      has an id stops the loop with its exception, and the inserts before it stay. */
  function InsertAll(rows: seq<StoreRow>, lastInsertRowId: int, stores: seq<GroceryStore>): Batch
    decreases |stores|
  {
    if stores == [] then Batch(rows, lastInsertRowId, Pass)
    else
      match InsertStore(rows, lastInsertRowId, stores[0])
      case Err(e) => Batch(rows, lastInsertRowId, Fail(e))
      case Ok(ins) => InsertAll(ins.rows, ins.lastInsertRowId, stores[1..])
  }

  ghost function StoreLocations(stores: seq<GroceryStore>): set<Coord>
  {
    set k | 0 <= k < |stores| :: stores[k].location
  }

  /** A batch of id-less stores succeeds, keeps locations unique, and leaves exactly the old
      locations plus the batch's locations in the table: no store is lost and none duplicated. */
  lemma {:induction false} InsertAllStoresEveryLocation(rows: seq<StoreRow>, last: int, stores: seq<GroceryStore>)
    requires UniqueLocations(rows)
    requires forall k | 0 <= k < |stores| :: !HasId(stores[k])
    ensures InsertAll(rows, last, stores).outcome == Pass
    ensures UniqueLocations(InsertAll(rows, last, stores).rows)
    ensures Locations(InsertAll(rows, last, stores).rows) == Locations(rows) + StoreLocations(stores)
    decreases |stores|
  {
    if stores != [] {
      var ins := InsertStore(rows, last, stores[0]).value;
      InsertStoreKeepsUnique(rows, last, stores[0]);
      InsertAllStoresEveryLocation(ins.rows, ins.lastInsertRowId, stores[1..]);
      assert StoreLocations(stores) == {stores[0].location} + StoreLocations(stores[1..]) by {
        forall c | c in StoreLocations(stores) ensures c in {stores[0].location} + StoreLocations(stores[1..]) {
          var k :| 0 <= k < |stores| && stores[k].location == c;
          if k > 0 { assert stores[1..][k - 1].location == c; }
        }
        forall c | c in StoreLocations(stores[1..]) ensures c in StoreLocations(stores) {
          var k :| 0 <= k < |stores[1..]| && stores[1..][k].location == c;
          assert stores[k + 1].location == c;
        }
      }
    } else {
      assert StoreLocations(stores) == {};
    }
  }

  /** A store with an id makes the whole batch fail with IllegalArgumentException, after the
      stores before the first such one have been inserted; the failing store inserts nothing. */
  lemma {:induction false} InsertAllStopsAtStoreWithId(rows: seq<StoreRow>, last: int, stores: seq<GroceryStore>, k: nat)
    requires k < |stores| && HasId(stores[k])
    requires forall m | 0 <= m < k :: !HasId(stores[m])
    ensures InsertAll(rows, last, stores).outcome == Fail(IllegalArgumentException)
    ensures InsertAll(rows, last, stores).rows == InsertAll(rows, last, stores[..k]).rows
    decreases k
  {
    if k == 0 {
      assert stores[..k] == [];
    } else {
      var ins := InsertStore(rows, last, stores[0]).value;
      assert stores[1..][..k - 1] == stores[..k][1..];
      InsertAllStopsAtStoreWithId(ins.rows, ins.lastInsertRowId, stores[1..], k - 1);
    }
  }

  /** The stores whose location lies in the rectangle, in table order, read back with their
      ids (`selectStore` through the spatial index: a point row is a hit exactly when it lies
      in the search frame's containing rectangle). */
  function SelectInEnvelope(rows: seq<StoreRow>, e: Envelope): seq<GroceryStore>
  {
    if rows == [] then []
    else
      var k := |rows| - 1;
      SelectInEnvelope(rows[..k], e) +
        (if EnvelopeContains(e, rows[k].location.x, rows[k].location.y) then [StoreAt(rows, k)] else [])
  }

  /** A store is selected exactly when it is read back from a row whose location lies in the
      rectangle. */
  lemma {:induction false} SelectInEnvelopeExact(rows: seq<StoreRow>, e: Envelope, s: GroceryStore)
    ensures s in SelectInEnvelope(rows, e) <==>
              exists k :: 0 <= k < |rows| && EnvelopeContains(e, rows[k].location.x, rows[k].location.y) &&
                          s == StoreAt(rows, k)
  {
    if rows != [] {
      var n := |rows| - 1;
      SelectInEnvelopeExact(rows[..n], e, s);
      if exists k :: 0 <= k < |rows[..n]| && EnvelopeContains(e, rows[..n][k].location.x, rows[..n][k].location.y) &&
                     s == StoreAt(rows[..n], k) {
        var k :| 0 <= k < |rows[..n]| && EnvelopeContains(e, rows[..n][k].location.x, rows[..n][k].location.y) &&
                 s == StoreAt(rows[..n], k);
        assert StoreAt(rows, k) == StoreAt(rows[..n], k);
      }
      if exists k :: 0 <= k < n && EnvelopeContains(e, rows[k].location.x, rows[k].location.y) && s == StoreAt(rows, k) {
        var k :| 0 <= k < n && EnvelopeContains(e, rows[k].location.x, rows[k].location.y) && s == StoreAt(rows, k);
        assert StoreAt(rows, k) == StoreAt(rows[..n], k);
      }
    }
  }

  /** Nothing is selected exactly when no row's location lies in the rectangle. */
  lemma SelectInEnvelopeEmpty(rows: seq<StoreRow>, e: Envelope)
    ensures SelectInEnvelope(rows, e) == [] <==>
              forall k | 0 <= k < |rows| :: !EnvelopeContains(e, rows[k].location.x, rows[k].location.y)
  {
    if SelectInEnvelope(rows, e) != [] {
      SelectInEnvelopeExact(rows, e, SelectInEnvelope(rows, e)[0]);
    }
    forall k | 0 <= k < |rows| && EnvelopeContains(e, rows[k].location.x, rows[k].location.y)
      ensures SelectInEnvelope(rows, e) != []
    {
      SelectInEnvelopeExact(rows, e, StoreAt(rows, k));
    }
  }

  /** No selected store lies outside the rectangle, and the selection never has more entries
      than the table has rows. */
  lemma {:induction false} SelectInEnvelopeBounds(rows: seq<StoreRow>, e: Envelope)
    ensures |SelectInEnvelope(rows, e)| <= |rows|
    ensures forall s | s in SelectInEnvelope(rows, e) :: EnvelopeContains(e, s.location.x, s.location.y)
  {
    if rows != [] {
      SelectInEnvelopeBounds(rows[..|rows| - 1], e);
    }
  }

  /** The test of the source: four inserts over two locations leave two rows. */
  lemma FourInsertsOverTwoLocations(a: GroceryStore, b: GroceryStore)
    requires !HasId(a) && !HasId(b) && a.location != b.location
    ensures InsertAll([], 0, [a, b, a, b]).outcome == Pass
    ensures |InsertAll([], 0, [a, b, a, b]).rows| == 2
  {
    var r1 := [StoreRow(a.name, a.location)];
    var r2 := r1 + [StoreRow(b.name, b.location)];
    assert !HasLocation([], a.location);
    assert InsertStore([], 0, a).value.rows == r1;
    assert !HasLocation(r1, b.location);
    assert InsertStore(r1, 1, b).value.rows == r2;
    assert r2[0].location == a.location;
    assert HasLocation(r2, a.location);
    assert r2[1].location == b.location;
    assert HasLocation(r2, b.location);
    assert [a, b, a, b][1..] == [b, a, b];
    assert [b, a, b][1..] == [a, b];
    assert [a, b][1..] == [b];
    assert [b][1..] == [];
    assert InsertStore(r2, 2, a).value.rows == r2;
    assert InsertStore(r2, 2, b).value.rows == r2;
    assert InsertAll(r2, 2, [b]) == InsertAll(r2, 2, []);
    assert InsertAll(r2, 2, [a, b]) == InsertAll(r2, 2, [b]);
    assert InsertAll(r1, 1, [b, a, b]) == InsertAll(r2, 2, [a, b]);
    assert InsertAll([], 0, [a, b, a, b]) == InsertAll(r1, 1, [b, a, b]);
  }
}
