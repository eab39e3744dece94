/** The external grocery-store source (a places service) as an oracle: each call answers with a
    list of stores in the source's coordinate system or fails. The counter is that of the
    counting test implementation, kept for every instance so that the number of external
    queries can be stated. */
module StoreSource {
  import opened Wrappers
  import opened Geometry
  import opened GroceryStores

  class GroceryStoreSource {
    /** The answer to `nearbyQueryFor(location, radius)`; None means the call throws. */
    const answer: (Coord, Int32) -> Option<seq<GroceryStore>>
    /** `numQueries`. */
    var numQueries: nat
    /** The calls made so far, oldest first. */
    ghost var queries: seq<(Coord, Int32)>

    ghost predicate Valid()
      reads this
    {
      numQueries == |queries|
    }

    /** `GroceryStoreSourceTestImpl()`: no queries yet, and every query finds nothing. */
    constructor TestImpl()
      ensures Valid() && numQueries == 0 && queries == []
      ensures forall c, r :: answer(c, r) == Some([])
    {
      answer := (c: Coord, r: Int32) => Some([]);
      numQueries := 0;
      queries := [];
    }

    /** `GroceryStoreSourceExceptionImpl()`: every query throws. */
    constructor ExceptionImpl()
      ensures Valid() && numQueries == 0 && queries == []
      ensures forall c, r :: answer(c, r) == None
    {
      answer := (c: Coord, r: Int32) => None;
      numQueries := 0;
      queries := [];
    }

    /** Any other source, described by its answers. */
    constructor (answer: (Coord, Int32) -> Option<seq<GroceryStore>>)
      ensures Valid() && numQueries == 0 && queries == [] && this.answer == answer
    {
      this.answer := answer;
      numQueries := 0;
      queries := [];
    }

    /** `nearbyQueryFor`: one more query, answered by the oracle. */
    method NearbyQueryFor(location: Coord, radius: Int32) returns (r: Option<seq<GroceryStore>>)
      requires Valid()
      modifies this
      ensures Valid()
      ensures r == answer(location, radius)
      ensures numQueries == old(numQueries) + 1 && queries == old(queries) + [(location, radius)]
    {
      numQueries := numQueries + 1;
      queries := queries + [(location, radius)];
      r := answer(location, radius);
    }

    /** `getNumQueries`: the number of calls so far; reading it changes nothing. */
    function GetNumQueries(): (n: nat)
      requires Valid()
      reads this
      ensures n == |queries|
    {
      numQueries
    }
  }
}
