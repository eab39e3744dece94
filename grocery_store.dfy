/** The immutable grocery-store record: an optional database id (the sentinel -1 until the
    store is persisted), an optional name and a location that is never null. */
module GroceryStores {
  import opened Wrappers
  import opened Geometry

  /** The id of a store that is not (yet) in the database. */
  const NoId: Int32 := -1

  datatype GroceryStore = GroceryStore(id: Int32, name: Option<string>, location: Coord)

  /** `new GroceryStore(id, name, location)`: a null location is rejected. */
  function NewStore(id: Int32, name: Option<string>, location: Option<Coord>): (r: Result<GroceryStore>)
    ensures location.None? <==> r == Err(IllegalArgumentException)
    ensures r.Ok? ==> r.value.id == id && r.value.name == name && location == Some(r.value.location)
  {
    if location.None? then Err(IllegalArgumentException)
    else Ok(GroceryStore(id, name, location.value))
  }

  /** `new GroceryStore(name, location)`: the same, with the id left at the sentinel. */
  function NewStoreWithoutId(name: Option<string>, location: Option<Coord>): (r: Result<GroceryStore>)
    ensures location.None? <==> r == Err(IllegalArgumentException)
    ensures r.Ok? ==> !HasId(r.value) && r.value.id == NoId && r.value.name == name
    ensures r.Ok? ==> location == Some(r.value.location)
  {
    NewStore(NoId, name, location)
  }

  /** The store has been given a database id. */
  predicate HasId(s: GroceryStore)
  {
    s.id != NoId
  }

  /** The store has a known name. */
  predicate HasName(s: GroceryStore)
  {
    s.name.Some?
  }

  /** `setId`: a copy of an id-less store carrying the given id; a store that already has an id
      cannot be given another. */
  function SetId(s: GroceryStore, id: Int32): (r: Result<GroceryStore>)
    ensures HasId(s) <==> r == Err(IllegalStateException)
    ensures r.Ok? ==> r.value.id == id && r.value.name == s.name && r.value.location == s.location
  {
    if s.id != NoId then Err(IllegalStateException)
    else Ok(GroceryStore(id, s.name, s.location))
  }

  /** `transform`: a copy with the transformation applied to the location only. */
  function Transform(s: GroceryStore, f: Coord -> Coord): (r: GroceryStore)
    ensures r.id == s.id && r.name == s.name && r.location == f(s.location)
  {
    GroceryStore(s.id, s.name, f(s.location))
  }

  /** An id is assigned at most once: after a successful `setId` with a real id, a second one
      fails. */
  lemma SetIdOnlyOnce(s: GroceryStore, first: Int32, second: Int32)
    requires !HasId(s) && first != NoId
    ensures SetId(s, first).Ok? && HasId(SetId(s, first).value)
    ensures SetId(SetId(s, first).value, second) == Err(IllegalStateException)
  {
  }
}
