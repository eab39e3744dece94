/** The query planner of `getAllGroceryStores`: circles of a fixed radius are centred on a
    hexagonal lattice laid over the bounding rectangle of the unsearched region, and a centre
    is kept when its circle meets that region.

    Row i starts at (minX + 1.5·r·i, minY + (s/2)·r·i), s = √3. Along a row the candidate
    centres step up by s·r starting from column j = -(i/2) (Java's `-i/2`, truncating), and the
    row ends with the first candidate above maxY. Rows continue while the row's starting point
    lies in the rectangle. */
module HexTiling {
  import opened Geometry

  /** Segments per quarter circle of a query circle (so 36 in all). */
  const BufferQuadrantSegments: int := 9

  function RowX(e: Envelope, r: real, i: nat): real
  {
    e.minX + r * (i as real) * 1.5
  }

  function RowY(e: Envelope, r: real, s: real, i: nat): real
  {
    e.minY + r * s * (i as real) / 2.0
  }

  /** Java's `-i/2` for i >= 0. */
  function FirstColumn(i: nat): int
  {
    -(i / 2)
  }

  /** The lattice point of row i, column j. */
  function Candidate(e: Envelope, r: real, s: real, i: nat, j: int): Coord
  {
    Coord(RowX(e, r, i), RowY(e, r, s, i) + r * s * (j as real))
  }

  /** The row's starting point lies in the rectangle, so the next row is planned too. */
  predicate RowContinues(e: Envelope, r: real, s: real, i: nat)
  {
    EnvelopeContains(e, RowX(e, r, i), RowY(e, r, s, i))
  }

  lemma FloorBound(t: real, d: real, j: int)
    requires d > 0.0 && d * (j as real) <= t
    ensures j <= (t / d).Floor
  {
    assert (t / d) * d == t;
    assert (j as real) <= t / d;
  }

  /** How many more candidates row i evaluates from column j on (up to one). */
  function ColumnMeasure(e: Envelope, r: real, s: real, i: nat, j: int): int
    requires r > 0.0 && s > 0.0
  {
    if Candidate(e, r, s, i, j).y <= e.maxY then ((e.maxY - RowY(e, r, s, i)) / (r * s)).Floor - j + 1 else 0
  }

  lemma ColumnStep(e: Envelope, r: real, s: real, i: nat, j: int)
    requires r > 0.0 && s > 0.0
    requires Candidate(e, r, s, i, j).y <= e.maxY
    ensures 0 <= ColumnMeasure(e, r, s, i, j + 1) < ColumnMeasure(e, r, s, i, j)
  {
    var t := e.maxY - RowY(e, r, s, i);
    var d := r * s;
    assert d * (j as real) <= t;
    FloorBound(t, d, j);
    if Candidate(e, r, s, i, j + 1).y <= e.maxY {
      assert Candidate(e, r, s, i, j + 1).y == RowY(e, r, s, i) + d * ((j + 1) as real);
      FloorBound(t, d, j + 1);
    }
  }

  /** The candidates row i evaluates from column j on: the candidate at j, and the rest of the
      row when it is not above the rectangle. */
  function Column(e: Envelope, r: real, s: real, i: nat, j: int): seq<Coord>
    requires r > 0.0 && s > 0.0
    decreases ColumnMeasure(e, r, s, i, j)
  {
    var c := Candidate(e, r, s, i, j);
    if c.y <= e.maxY then
      ColumnStep(e, r, s, i, j);
      [c] + Column(e, r, s, i, j + 1)
    else [c]
  }

  /** How many more rows are planned from row i on (up to one). */
  function RowMeasure(e: Envelope, r: real, s: real, i: nat): int
    requires r > 0.0
  {
    if RowContinues(e, r, s, i) then ((e.maxX - e.minX) / (r * 1.5)).Floor - i + 1 else 0
  }

  lemma RowStep(e: Envelope, r: real, s: real, i: nat)
    requires r > 0.0
    requires RowContinues(e, r, s, i)
    ensures 0 <= RowMeasure(e, r, s, i + 1) < RowMeasure(e, r, s, i)
  {
    var t := e.maxX - e.minX;
    var d := r * 1.5;
    assert d * (i as real) <= t;
    FloorBound(t, d, i);
    if RowContinues(e, r, s, i + 1) {
      assert d * ((i + 1) as real) <= t;
      FloorBound(t, d, i + 1);
    }
  }

  /** The candidates of row i and of all rows after it. */
  function Rows(e: Envelope, r: real, s: real, i: nat): seq<Coord>
    requires r > 0.0 && s > 0.0
    decreases RowMeasure(e, r, s, i)
  {
    Column(e, r, s, i, FirstColumn(i)) +
      if RowContinues(e, r, s, i) then RowStep(e, r, s, i); Rows(e, r, s, i + 1) else []
  }

  /** Every candidate the two loops evaluate, in evaluation order. */
  function Candidates(e: Envelope, r: real, s: real): seq<Coord>
    requires r > 0.0 && s > 0.0
  {
    Rows(e, r, s, 0)
  }

  /** A row evaluates at least one candidate; its m-th candidate is the lattice point of column
      j + m; every candidate but the last is at most maxY and the last is above it. */
  lemma {:induction false} ColumnShape(e: Envelope, r: real, s: real, i: nat, j: int)
    requires r > 0.0 && s > 0.0
    ensures |Column(e, r, s, i, j)| >= 1
    ensures forall m | 0 <= m < |Column(e, r, s, i, j)| :: Column(e, r, s, i, j)[m] == Candidate(e, r, s, i, j + m)
    ensures forall m | 0 <= m < |Column(e, r, s, i, j)| - 1 :: Column(e, r, s, i, j)[m].y <= e.maxY
    ensures Column(e, r, s, i, j)[|Column(e, r, s, i, j)| - 1].y > e.maxY
    decreases ColumnMeasure(e, r, s, i, j)
  {
    var c := Candidate(e, r, s, i, j);
    if c.y <= e.maxY {
      ColumnStep(e, r, s, i, j);
      ColumnShape(e, r, s, i, j + 1);
      var tail := Column(e, r, s, i, j + 1);
      assert Column(e, r, s, i, j) == [c] + tail;
      forall m | 1 <= m < |Column(e, r, s, i, j)|
        ensures Column(e, r, s, i, j)[m] == Candidate(e, r, s, i, j + m)
      {
        assert Column(e, r, s, i, j)[m] == tail[m - 1];
        assert j + 1 + (m - 1) == j + m;
      }
    }
  }

  /** The index of the row whose starting point first leaves the rectangle. */
  function LastRow(e: Envelope, r: real, s: real, i: nat): nat
    requires r > 0.0
    decreases RowMeasure(e, r, s, i)
  {
    if RowContinues(e, r, s, i) then RowStep(e, r, s, i); LastRow(e, r, s, i + 1) else i
  }

  /** Rows i through n, each evaluated in full. */
  function RowsThrough(e: Envelope, r: real, s: real, i: nat, n: nat): seq<Coord>
    requires r > 0.0 && s > 0.0
    decreases n - i
  {
    Column(e, r, s, i, FirstColumn(i)) + if i < n then RowsThrough(e, r, s, i + 1, n) else []
  }

  /** The rows stop exactly at the first row whose starting point lies outside the rectangle:
      the rows before it all start inside, and that last row is still evaluated. */
  lemma {:induction false} RowsStop(e: Envelope, r: real, s: real, i: nat)
    requires r > 0.0 && s > 0.0
    ensures i <= LastRow(e, r, s, i)
    ensures forall m | i <= m < LastRow(e, r, s, i) :: RowContinues(e, r, s, m)
    ensures !RowContinues(e, r, s, LastRow(e, r, s, i))
    ensures Rows(e, r, s, i) == RowsThrough(e, r, s, i, LastRow(e, r, s, i))
    decreases RowMeasure(e, r, s, i)
  {
    if RowContinues(e, r, s, i) {
      RowStep(e, r, s, i);
      RowsStop(e, r, s, i + 1);
    }
  }

  lemma {:induction false} InRowsThrough(e: Envelope, r: real, s: real, i: nat, n: nat, c: Coord)
    requires r > 0.0 && s > 0.0
    requires c in RowsThrough(e, r, s, i, n)
    ensures exists row: nat, col: int :: i <= row && (row <= n || row == i) && FirstColumn(row) <= col &&
                                         c == Candidate(e, r, s, row, col)
    decreases n - i
  {
    var first := Column(e, r, s, i, FirstColumn(i));
    if c in first {
      ColumnShape(e, r, s, i, FirstColumn(i));
      var m :| 0 <= m < |first| && first[m] == c;
      assert c == Candidate(e, r, s, i, FirstColumn(i) + m);
    } else {
      InRowsThrough(e, r, s, i + 1, n, c);
    }
  }

  /** Every candidate is the lattice point of a row 0 <= i <= LastRow and a column j >= -(i/2). */
  lemma LatticeForm(e: Envelope, r: real, s: real, c: Coord)
    requires r > 0.0 && s > 0.0
    requires c in Candidates(e, r, s)
    ensures exists i: nat, j: int :: i <= LastRow(e, r, s, 0) && FirstColumn(i) <= j && c == Candidate(e, r, s, i, j)
  {
    RowsStop(e, r, s, 0);
    InRowsThrough(e, r, s, 0, LastRow(e, r, s, 0), c);
  }

  function SqDist(a: Coord, b: Coord): real
  {
    (a.x - b.x) * (a.x - b.x) + (a.y - b.y) * (a.y - b.y)
  }

  /** The lattice is hexagonal: a candidate's neighbours above it in its row and in the next
      row up and down are all at distance √3·r, the spacing of circles of radius r that cover
      the plane with hexagonal overlaps. */
  lemma HexSpacing(e: Envelope, r: real, s: real, i: nat, j: int)
    requires s * s == 3.0
    ensures SqDist(Candidate(e, r, s, i, j), Candidate(e, r, s, i, j + 1)) == 3.0 * r * r
    ensures SqDist(Candidate(e, r, s, i, j), Candidate(e, r, s, i + 1, j)) == 3.0 * r * r
    ensures SqDist(Candidate(e, r, s, i, j), Candidate(e, r, s, i + 1, j - 1)) == 3.0 * r * r
  {
    var a := Candidate(e, r, s, i, j);
    var up := Candidate(e, r, s, i, j + 1);
    var next := Candidate(e, r, s, i + 1, j);
    var nextDown := Candidate(e, r, s, i + 1, j - 1);
    assert a.x - up.x == 0.0 && a.y - up.y == -(r * s);
    assert (r * s) * (r * s) == r * r * (s * s);
    assert a.x - next.x == -(1.5 * r) && a.y - next.y == -(r * s / 2.0);
    assert a.x - nextDown.x == -(1.5 * r) && a.y - nextDown.y == r * s / 2.0;
    assert (r * s / 2.0) * (r * s / 2.0) == r * r * (s * s) / 4.0;
  }

  /** A centre is kept when its 36-segment circle intersects the region. */
  predicate Keeps(k: Kernel, region: Region, radius: real, c: Coord)
  {
    k.intersects(k.circle(c, radius, BufferQuadrantSegments), region)
  }

  /** The kept candidates, projected back to the source's coordinates, in evaluation order. */
  function Select(cs: seq<Coord>, k: Kernel, region: Region, radius: real, project: Coord -> Coord): seq<Coord>
  {
    if cs == [] then []
    else (if Keeps(k, region, radius, cs[0]) then [project(cs[0])] else []) + Select(cs[1..], k, region, radius, project)
  }

  lemma {:induction false} SelectAppend(a: seq<Coord>, b: seq<Coord>, k: Kernel, region: Region, radius: real,
                                         project: Coord -> Coord)
    ensures Select(a + b, k, region, radius, project) ==
              Select(a, k, region, radius, project) + Select(b, k, region, radius, project)
  {
    if a != [] {
      assert (a + b)[0] == a[0] && (a + b)[1..] == a[1..] + b;
      SelectAppend(a[1..], b, k, region, radius, project);
    } else {
      assert a + b == b;
    }
  }

  /** A query point is planned exactly when it is the projection of a kept candidate. */
  lemma {:induction false} SelectExact(cs: seq<Coord>, k: Kernel, region: Region, radius: real,
                                        project: Coord -> Coord, q: Coord)
    ensures q in Select(cs, k, region, radius, project) <==>
              exists c :: c in cs && Keeps(k, region, radius, c) && q == project(c)
  {
    if cs != [] {
      SelectExact(cs[1..], k, region, radius, project, q);
      if exists c :: c in cs[1..] && Keeps(k, region, radius, c) && q == project(c) {
        var c :| c in cs[1..] && Keeps(k, region, radius, c) && q == project(c);
        assert c in cs;
      }
      if exists c :: c in cs && Keeps(k, region, radius, c) && q == project(c) {
        var c :| c in cs && Keeps(k, region, radius, c) && q == project(c);
        if c != cs[0] {
          assert c in cs[1..];
        }
      }
    }
  }

  /** With a sound library nothing is planned for an empty region: every frame that is
      already fully searched costs no query. */
  lemma {:induction false} EmptyRegionPlansNothing(cs: seq<Coord>, k: Kernel, radius: real, project: Coord -> Coord)
    requires Sound(k)
    ensures Select(cs, k, iset{}, radius, project) == []
  {
    if cs != [] {
      EmptyRegionPlansNothing(cs[1..], k, radius, project);
    }
  }

  lemma AppendAssoc(a: seq<Coord>, b: seq<Coord>, c: seq<Coord>)
    ensures a + (b + c) == (a + b) + c
  {
  }

  /** One step of a row: the candidate at column j is evaluated, then the rest of the row
      unless that candidate is above the rectangle. */
  lemma SelectColumnStep(e: Envelope, r: real, s: real, i: nat, j: int, k: Kernel, region: Region,
                         project: Coord -> Coord)
    requires r > 0.0 && s > 0.0
    ensures var c := Candidate(e, r, s, i, j);
            Select(Column(e, r, s, i, j), k, region, r, project) ==
              (if Keeps(k, region, r, c) then [project(c)] else []) +
              (if c.y <= e.maxY then Select(Column(e, r, s, i, j + 1), k, region, r, project) else [])
  {
    var c := Candidate(e, r, s, i, j);
    var rest := if c.y <= e.maxY then Column(e, r, s, i, j + 1) else [];
    assert Column(e, r, s, i, j) == [c] + rest;
    assert ([c] + rest)[1..] == rest;
  }

  /** One step of the rows: row i, then the later rows when row i starts in the rectangle. */
  lemma SelectRowsStep(e: Envelope, r: real, s: real, i: nat, k: Kernel, region: Region, project: Coord -> Coord)
    requires r > 0.0 && s > 0.0
    ensures Select(Rows(e, r, s, i), k, region, r, project) ==
              Select(Column(e, r, s, i, FirstColumn(i)), k, region, r, project) +
              (if RowContinues(e, r, s, i) then Select(Rows(e, r, s, i + 1), k, region, r, project) else [])
  {
    var later := if RowContinues(e, r, s, i) then Rows(e, r, s, i + 1) else [];
    assert Rows(e, r, s, i) == Column(e, r, s, i, FirstColumn(i)) + later;
    SelectAppend(Column(e, r, s, i, FirstColumn(i)), later, k, region, r, project);
  }

  /** The inner do-while loop for row i, whose starting point is (x, y): candidates from
      column -(i/2) upwards until one lies above the rectangle, each kept one recorded
      projected. */
  method PlanRow(k: Kernel, region: Region, boundingRect: Envelope, radius: real, project: Coord -> Coord,
                 i: nat, x: real, y: real)
    returns (rowCoordinates: seq<Coord>)
    requires radius > 0.0
    requires x == RowX(boundingRect, radius, i) && y == RowY(boundingRect, radius, k.sqrt3, i)
    ensures rowCoordinates ==
              Select(Column(boundingRect, radius, k.sqrt3, i, FirstColumn(i)), k, region, radius, project)
  {
    var e := boundingRect;
    var s := k.sqrt3;
    var yPrime: real;
    var j := -(i / 2);
    ghost var row := Select(Column(e, radius, s, i, j), k, region, radius, project);
    rowCoordinates := [];
    var moreColumns := true;
    while moreColumns
      invariant moreColumns ==> row == rowCoordinates + Select(Column(e, radius, s, i, j), k, region, radius, project)
      invariant !moreColumns ==> row == rowCoordinates
      decreases if moreColumns then ColumnMeasure(e, radius, s, i, j) + 1 else 0
    {
      yPrime := y + (radius * s * (j as real));
      var queryPoint := Coord(x, yPrime);
      assert queryPoint == Candidate(e, radius, s, i, j);
      SelectColumnStep(e, radius, s, i, j, k, region, project);
      ghost var kept := if Keeps(k, region, radius, queryPoint) then [project(queryPoint)] else [];
      ghost var rest := if yPrime <= e.maxY then Select(Column(e, radius, s, i, j + 1), k, region, radius, project) else [];
      AppendAssoc(rowCoordinates, kept, rest);
      ghost var previous := rowCoordinates;
      if k.intersects(k.circle(queryPoint, radius, BufferQuadrantSegments), region) {
        rowCoordinates := rowCoordinates + [project(queryPoint)];
      }
      assert rowCoordinates == previous + kept;
      moreColumns := yPrime <= e.maxY;
      if moreColumns {
        ColumnStep(e, radius, s, i, j);
      }
      j := j + 1;
    }
  }

  /** The outer do-while loop: rows from i = 0, the next one started while the current row's
      starting point lies in the rectangle. */
  method PlanQueryCentres(k: Kernel, region: Region, boundingRect: Envelope, radius: real, project: Coord -> Coord)
    returns (queryCoordinates: seq<Coord>)
    requires radius > 0.0
    ensures queryCoordinates == Select(Candidates(boundingRect, radius, k.sqrt3), k, region, radius, project)
  {
    var e := boundingRect;
    var s := k.sqrt3;
    ghost var all := Select(Candidates(e, radius, s), k, region, radius, project);
    queryCoordinates := [];
    var i: nat := 0;
    var x: real, y: real;
    var moreRows := true;
    while moreRows
      invariant moreRows ==> all == queryCoordinates + Select(Rows(e, radius, s, i), k, region, radius, project)
      invariant !moreRows ==> all == queryCoordinates
      decreases if moreRows then RowMeasure(e, radius, s, i) + 1 else 0
    {
      x := e.minX + radius * (i as real) * 1.5;
      y := e.minY + radius * s * (i as real) / 2.0;
      var rowCoordinates := PlanRow(k, region, e, radius, project, i, x, y);
      SelectRowsStep(e, radius, s, i, k, region, project);
      ghost var later := if RowContinues(e, radius, s, i) then Select(Rows(e, radius, s, i + 1), k, region, radius, project) else [];
      AppendAssoc(queryCoordinates, rowCoordinates, later);
      queryCoordinates := queryCoordinates + rowCoordinates;
      moreRows := EnvelopeContains(e, x, y);
      if moreRows {
        RowStep(e, radius, s, i);
      }
      i := i + 1;
    }
  }
}
