/** The coordinate-wise geometry transformer used to move geometries between the store
    source's and the database's coordinate systems. */
module Transformers {
  import opened Geometry

  /** The transformed sequence: `f` applied to each coordinate, in order. */
  function MapCoords(f: Coord -> Coord, coords: seq<Coord>): seq<Coord>
  {
    if coords == [] then [] else [f(coords[0])] + MapCoords(f, coords[1..])
  }

  /** The mapped sequence keeps the length and the order, element by element. */
  lemma {:induction false} MapCoordsPointwise(f: Coord -> Coord, coords: seq<Coord>)
    ensures |MapCoords(f, coords)| == |coords|
    ensures forall i | 0 <= i < |coords| :: MapCoords(f, coords)[i] == f(coords[i])
  {
    if coords != [] {
      MapCoordsPointwise(f, coords[1..]);
      forall i | 0 <= i < |coords| ensures MapCoords(f, coords)[i] == f(coords[i]) {
        if i > 0 {
          assert MapCoords(f, coords)[i] == MapCoords(f, coords[1..])[i - 1];
          assert coords[1..][i - 1] == coords[i];
        }
      }
    }
  }

  /** Mapping distributes over concatenation. */
  lemma {:induction false} MapCoordsAppend(f: Coord -> Coord, a: seq<Coord>, b: seq<Coord>)
    ensures MapCoords(f, a + b) == MapCoords(f, a) + MapCoords(f, b)
  {
    if a != [] {
      assert (a + b)[1..] == a[1..] + b;
      MapCoordsAppend(f, a[1..], b);
    } else {
      assert a + b == b;
    }
  }

  /** Mapping twice is mapping once by the composition (a transformer built from two
      projections in a row is one transformer). */
  lemma {:induction false} MapCoordsCompose(f: Coord -> Coord, g: Coord -> Coord, coords: seq<Coord>)
    ensures MapCoords(g, MapCoords(f, coords)) == MapCoords(c => g(f(c)), coords)
  {
    if coords != [] {
      MapCoordsCompose(f, g, coords[1..]);
    }
  }

  class PointTransformer {
    /** The per-point transformation. */
    const transform: Coord -> Coord

    constructor (transform: Coord -> Coord)
      ensures this.transform == transform
    {
      this.transform := transform;
    }

    /** `transformCoordinates`: a new array holding the transformed coordinates; the input
        sequence is a value and stays as it is. */
    method TransformCoordinates(coords: seq<Coord>) returns (newCoords: array<Coord>)
      ensures fresh(newCoords)
      ensures newCoords[..] == MapCoords(transform, coords)
    {
      newCoords := new Coord[|coords|];
      for i := 0 to |coords|
        invariant forall k | 0 <= k < i :: newCoords[k] == transform(coords[k])
      {
        newCoords[i] := transform(coords[i]);
      }
      MapCoordsPointwise(transform, coords);
    }
  }
}
