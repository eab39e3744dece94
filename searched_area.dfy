/** The `searched_area` table's queries, shared by both versions of the food-desert database:
    the point-in-searched-area test, which scans every row, and the intersection of a search
    frame with the searched area, which goes through the spatial index. */
module SearchedArea {
  import opened Geometry

  /** The rows the spatial index returns for a frame, in table order: those whose bounding
      rectangle meets the frame's. */
  function Hits(k: Kernel, rs: seq<Region>, frame: Region): seq<Region>
  {
    if rs == [] then []
    else if IndexHit(k, rs[0], frame) then [rs[0]] + Hits(k, rs[1..], frame)
    else Hits(k, rs[1..], frame)
  }

  /** `SELECT count(*) ... WHERE CONTAINS(buffer, point) = 1` is positive. */
  predicate AnyContains(k: Kernel, rs: seq<Region>, p: Coord)
  {
    exists i | 0 <= i < |rs| :: k.contains(rs[i], p)
  }

  /** `selectSearchedBuffer`: the intersection of the frame with the union of the index hits;
      zero hits make the union NULL and a NULL or empty result is read back as an empty
      geometry collection. */
  function SearchedPart(k: Kernel, rs: seq<Region>, frame: Geometry): Geometry
  {
    var hits := Hits(k, rs, frame.points);
    if hits == [] then EmptyCollection
    else
      var pts := frame.points * UnionOf(hits);
      if k.isEmpty(pts) then EmptyCollection else Geometry(k.overlayType(pts), pts)
  }

  /** The spatial index loses nothing: within the frame, the union of the hits is the union of
      every row. */
  lemma {:induction false} HitsCoverFrame(k: Kernel, rs: seq<Region>, frame: Region)
    requires Sound(k)
    ensures frame * UnionOf(Hits(k, rs, frame)) == frame * UnionOf(rs)
    ensures forall r | r in Hits(k, rs, frame) :: r in rs
  {
    if rs != [] {
      HitsCoverFrame(k, rs[1..], frame);
      var tail := Hits(k, rs[1..], frame);
      assert UnionOf(rs) == rs[0] + UnionOf(rs[1..]);
      if IndexHit(k, rs[0], frame) {
        assert ([rs[0]] + tail)[1..] == tail;
        assert UnionOf(Hits(k, rs, frame)) == rs[0] + UnionOf(tail);
        forall p | p in frame ensures p in UnionOf(Hits(k, rs, frame)) <==> p in UnionOf(rs) {
          assert p in UnionOf(tail) <==> p in UnionOf(rs[1..]) by {
            assert p in frame * UnionOf(tail) <==> p in frame * UnionOf(rs[1..]);
          }
        }
      } else {
        forall p | p in frame * rs[0] ensures false {
          IndexHitComplete(k, rs[0], frame, p);
        }
        assert frame * UnionOf(rs) == frame * UnionOf(rs[1..]);
        assert Hits(k, rs, frame) == tail;
      }
      forall r | r in Hits(k, rs, frame) ensures r in rs {
        if r != rs[0] {
          assert r in tail;
          assert r in rs[1..];
        }
      }
    }
  }

  /** `selectSearchedBuffer` returns exactly the part of the frame that lies in the searched
      area, and an empty collection when that part is empty (in particular when nothing has
      been searched). */
  lemma SearchedPartIsIntersection(k: Kernel, rs: seq<Region>, frame: Geometry)
    ensures Sound(k) ==> SearchedPart(k, rs, frame).points == frame.points * UnionOf(rs)
    ensures Sound(k) && frame.points * UnionOf(rs) == iset{} ==> SearchedPart(k, rs, frame) == EmptyCollection
  {
    if Sound(k) {
      HitsCoverFrame(k, rs, frame.points);
    }
  }

  /** A positive count means the point really lies in the searched area. */
  lemma {:induction false} AnyContainsSound(k: Kernel, rs: seq<Region>, p: Coord)
    ensures Sound(k) && AnyContains(k, rs, p) ==> p in UnionOf(rs)
  {
    if Sound(k) && AnyContains(k, rs, p) {
      var i :| 0 <= i < |rs| && k.contains(rs[i], p);
      InUnionOf(rs, p);
    }
  }

  /** Recording one more searched region adds exactly that region to the test. */
  lemma AnyContainsAppend(k: Kernel, rs: seq<Region>, r: Region, p: Coord)
    ensures AnyContains(k, rs + [r], p) <==> AnyContains(k, rs, p) || k.contains(r, p)
  {
    if AnyContains(k, rs, p) {
      var i :| 0 <= i < |rs| && k.contains(rs[i], p);
      assert (rs + [r])[i] == rs[i];
    }
    if AnyContains(k, rs + [r], p) {
      var i :| 0 <= i < |rs + [r]| && k.contains((rs + [r])[i], p);
      if i < |rs| { assert (rs + [r])[i] == rs[i]; }
    }
    if k.contains(r, p) {
      assert (rs + [r])[|rs|] == r;
    }
  }
}
