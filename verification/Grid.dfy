/** Cell arithmetic of the uniform grid, over exact metres and bounded cell coordinates. */
module Grid {
  const I32_MIN: int := -0x8000_0000
  const I32_MAX: int := 0x7FFF_FFFF
  const U32_MAX: int := 0xFFFF_FFFF

  type I32 = n: int | I32_MIN <= n <= I32_MAX witness 0
  type U32 = n: int | 0 <= n <= U32_MAX witness 0

  datatype Cell = Cell(x: I32, y: I32) {
    /** Ascending `x`, then ascending `y`. */
    predicate Before(that: Cell) {
      x < that.x || (x == that.x && y < that.y)
    }
  }

  datatype Point = Point(x: real, y: real, z: real)

  function Saturate(n: int): I32 {
    if n < I32_MIN then I32_MIN else if n > I32_MAX then I32_MAX else n
  }

  function SaturateU32(n: int): U32 {
    if n < 0 then 0 else if n > U32_MAX then U32_MAX else n
  }

  function Ceiling(r: real): int {
    -((-r).Floor)
  }

  function SaturatingAbs(n: I32): I32 {
    if n >= 0 then n else Saturate(-(n as int))
  }

  /** The number of rings between two cells. */
  function RingDistance(a: Cell, b: Cell): I32 {
    var dx := SaturatingAbs(Saturate(a.x - b.x));
    var dy := SaturatingAbs(Saturate(a.y - b.y));
    if dx > dy then dx else dy
  }

  function Coordinate(metres: real, size: real): I32
    requires size > 0.0
  {
    Saturate((metres / size).Floor)
  }

  function CellOf(p: Point, size: real): Cell
    requires size > 0.0
  {
    Cell(Coordinate(p.x, size), Coordinate(p.y, size))
  }

  // ---------- Ranges of cells ----------

  function Column(x: I32, y0: int, y1: I32): seq<Cell>
    requires I32_MIN <= y0
    decreases y1 - y0
  {
    if y0 > y1 then [] else [Cell(x, y0)] + Column(x, y0 + 1, y1)
  }

  /** The cells of a rectangle, column by column. */
  function Rectangle(x0: int, x1: I32, y0: I32, y1: I32): seq<Cell>
    requires I32_MIN <= x0
    decreases x1 - x0
  {
    if x0 > x1 then [] else Column(x0, y0, y1) + Rectangle(x0 + 1, x1, y0, y1)
  }

  function NeighborhoodRadius(centre: Cell, r: U32): seq<Cell> {
    var k := if r > I32_MAX then I32_MAX else r;
    Rectangle(Saturate(centre.x - k), Saturate(centre.x + k), Saturate(centre.y - k), Saturate(centre.y + k))
  }

  function Neighborhood(centre: Cell): seq<Cell> {
    NeighborhoodRadius(centre, 1)
  }

  /** Rings needed for a radius; the cast to an unsigned integer saturates. */
  function Rings(radius: real, size: real): U32
    requires size > 0.0
  {
    SaturateU32(Ceiling(radius / size))
  }

  function CellsWithin(p: Point, radius: real, size: real): seq<Cell>
    requires size > 0.0 && radius >= 0.0
  {
    NeighborhoodRadius(CellOf(p, size), Rings(radius, size))
  }

  ghost predicate Ascending(s: seq<Cell>) {
    forall i, j :: 0 <= i < j < |s| ==> s[i].Before(s[j])
  }

  lemma {:induction false} AboutColumn(x: I32, y0: int, y1: I32)
    requires I32_MIN <= y0
    ensures forall c :: c in Column(x, y0, y1) <==> c.x == x && y0 <= c.y <= y1
    ensures Ascending(Column(x, y0, y1))
    decreases y1 - y0
  {
    if y0 <= y1 {
      AboutColumn(x, y0 + 1, y1);
      var rest := Column(x, y0 + 1, y1);
      forall j | 0 <= j < |rest|
        ensures Cell(x, y0).Before(rest[j])
      {
        assert rest[j] in rest;
      }
    }
  }

  /** A range of cells is in strictly ascending order, hence without repetition, and is
      exactly the rectangle. */
  lemma {:induction false} AboutRectangle(x0: int, x1: I32, y0: I32, y1: I32)
    requires I32_MIN <= x0
    ensures forall c :: c in Rectangle(x0, x1, y0, y1) <==> x0 <= c.x <= x1 && y0 <= c.y <= y1
    ensures Ascending(Rectangle(x0, x1, y0, y1))
    decreases x1 - x0
  {
    if x0 <= x1 {
      AboutColumn(x0, y0, y1);
      AboutRectangle(x0 + 1, x1, y0, y1);
      var first, rest := Column(x0, y0, y1), Rectangle(x0 + 1, x1, y0, y1);
      var all := first + rest;
      forall i, j | 0 <= i < j < |all|
        ensures all[i].Before(all[j])
      {
        if i < |first| <= j {
          assert first[i] in first && rest[j - |first|] in rest;
        }
      }
    }
  }

  /** The cells at most `r` columns and rows away that exist, `r` being clamped: fewer than
      `(2r + 1)` squared at the edge of the coordinates, and each of them once. */
  lemma AboutNeighborhood(centre: Cell, r: U32, c: Cell)
    ensures var k := if r > I32_MAX then I32_MAX else r;
      c in NeighborhoodRadius(centre, r) <==>
        centre.x - k <= c.x <= centre.x + k && centre.y - k <= c.y <= centre.y + k
  {
    hide Rectangle, Column, Saturate;
    var k := if r > I32_MAX then I32_MAX else r;
    var x0, x1 := Saturate(centre.x - k), Saturate(centre.x + k);
    var y0, y1 := Saturate(centre.y - k), Saturate(centre.y + k);
    AboutRectangle(x0, x1, y0, y1);
    SaturatedRange(centre.x, k, c.x);
    SaturatedRange(centre.y, k, c.y);
    assert c in Rectangle(x0, x1, y0, y1) <==> x0 <= c.x <= x1 && y0 <= c.y <= y1;
  }

  lemma NeighborhoodAscends(centre: Cell, r: U32)
    ensures Ascending(NeighborhoodRadius(centre, r))
  {
    hide Rectangle, Column;
    var k := if r > I32_MAX then I32_MAX else r;
    AboutRectangle(Saturate(centre.x - k), Saturate(centre.x + k), Saturate(centre.y - k), Saturate(centre.y + k));
  }

  lemma SaturatedRange(a: I32, k: nat, v: I32)
    ensures Saturate(a - k) <= v <= Saturate(a + k) <==> a - k <= v <= a + k
  {
  }

  /** The neighbourhood is the ball of the ring distance, for every radius the distance can
      tell apart. */
  lemma NeighborhoodIsRingBall(centre: Cell, r: U32)
    ensures (forall c :: c in NeighborhoodRadius(centre, r) <==> RingDistance(c, centre) <= r) <==> r < I32_MAX
  {
    if r >= I32_MAX {
      NeverTheWholeSpace(centre, r);
      assert RingDistance(FarCell(centre), centre) <= r;
    } else {
      forall c
        ensures c in NeighborhoodRadius(centre, r) <==> RingDistance(c, centre) <= r
      {
        AboutNeighborhood(centre, r, c);
        hide NeighborhoodRadius;
      }
    }
  }

  function FarCell(centre: Cell): Cell {
    Cell(if centre.x >= 0 then I32_MIN else I32_MAX, centre.y)
  }

  /** No neighbourhood is the whole coordinate space, however large its radius. */
  lemma NeverTheWholeSpace(centre: Cell, r: U32)
    ensures FarCell(centre) !in NeighborhoodRadius(centre, r)
  {
    AboutNeighborhood(centre, r, FarCell(centre));
  }

  // ---------- Candidate cells against true distance ----------

  /** True distance in the plane, squared on both sides. */
  predicate Within(p: Point, radius: real, q: Point) {
    (q.x - p.x) * (q.x - p.x) + (q.y - p.y) * (q.y - p.y) <= radius * radius
  }

  lemma SquareBounds(d: real, e: real, radius: real)
    requires radius >= 0.0 && d * d + e * e <= radius * radius
    ensures -radius <= d <= radius
  {
    assert e * e >= 0.0 && (-d) * (-d) == d * d;
    if d > radius {
      Squares(radius, d);
    } else if -d > radius {
      Squares(radius, -d);
    }
  }

  lemma Squares(a: real, b: real)
    requires 0.0 <= a < b
    ensures a * a < b * b
  {
    assert b * b - a * b == b * (b - a) > 0.0;
    assert a * b - a * a == a * (b - a) >= 0.0;
  }

  lemma DivideOrder(a: real, b: real, size: real)
    requires size > 0.0 && a <= b
    ensures a / size <= b / size
  {
  }

  /** Cells follow the order of positions, saturated or not. */
  lemma CoordinateOrder(a: real, b: real, size: real)
    requires size > 0.0 && a <= b
    ensures Coordinate(a, size) <= Coordinate(b, size)
  {
    DivideOrder(a, b, size);
  }

  /** A cell is a half-open square, of the same width on both sides of the origin; the
      extreme ones take in everything beyond them. */
  lemma CellIsHalfOpen(metres: real, size: real, c: I32)
    requires size > 0.0
    ensures Coordinate(metres, size) == c <==>
      && (c == I32_MIN || c as real * size <= metres)
      && (c == I32_MAX || metres < (c as real + 1.0) * size)
  {
    AtMostQuotient(c as real, metres, size);
    AtMostQuotient(c as real + 1.0, metres, size);
    SaturatedFloor(metres / size, c);
  }

  lemma AtMostQuotient(u: real, metres: real, size: real)
    requires size > 0.0
    ensures u * size <= metres <==> u <= metres / size
  {
    var q := metres / size;
    assert q * size == metres;
    Spread(u, q, size);
    SignOfProduct(q - u, size);
  }

  lemma Spread(u: real, q: real, size: real)
    ensures (q - u) * size == q * size - u * size
  {
  }

  lemma SignOfProduct(d: real, size: real)
    requires size > 0.0
    ensures d * size >= 0.0 <==> d >= 0.0
  {
  }

  lemma SaturatedFloor(q: real, c: I32)
    ensures Saturate(q.Floor) == c <==> (c == I32_MIN || c as real <= q) && (c == I32_MAX || q < c as real + 1.0)
  {
    assert c as real <= q <==> c <= q.Floor;
    assert q < c as real + 1.0 <==> q.Floor <= c;
  }

  lemma DivideSum(a: real, d: real, size: real)
    requires size > 0.0
    ensures (a + d) / size == a / size + d / size && (a - d) / size == a / size - d / size
  {
    assert (a / size) * size == a && (d / size) * size == d;
    assert (a / size + d / size) * size == a + d;
    assert (a / size - d / size) * size == a - d;
  }

  /** A step of at most `radius` crosses at most `ceil(radius / size)` cell borders. */
  lemma StepCrossesFewCells(a: real, radius: real, size: real)
    requires size > 0.0 && radius >= 0.0
    ensures Coordinate(a + radius, size) - Coordinate(a, size) <= Ceiling(radius / size)
    ensures Coordinate(a, size) - Coordinate(a - radius, size) <= Ceiling(radius / size)
  {
    DivideSum(a, radius, size);
    DivideOrder(0.0, radius, size);
    assert 0.0 / size == 0.0;
    FloorSteps(a / size, radius / size);
  }

  lemma FloorSteps(u: real, w: real)
    requires w >= 0.0
    ensures (u + w).Floor - u.Floor <= Ceiling(w) && u.Floor - (u - w).Floor <= Ceiling(w)
    ensures Ceiling(w) >= 0
  {
  }

  /** The first and the last column (or row) of the candidate range reach as far as the
      radius does along the axis. Something a caller can check. */
  predicate AxisCovered(a: real, radius: real, size: real)
    requires size > 0.0
  {
    var k := if Rings(radius, size) > I32_MAX then I32_MAX else Rings(radius, size);
    && Coordinate(a, size) - k <= Coordinate(a - radius, size)
    && Coordinate(a + radius, size) <= Coordinate(a, size) + k
  }

  /** The candidate cells hold every point within the radius if and only if they reach the
      four extreme ones. */
  lemma CandidatesCompleteIff(p: Point, radius: real, size: real)
    requires size > 0.0 && radius >= 0.0
    ensures (forall q :: Within(p, radius, q) ==> CellOf(q, size) in CellsWithin(p, radius, size))
      <==> AxisCovered(p.x, radius, size) && AxisCovered(p.y, radius, size)
  {
    hide NeighborhoodRadius, Coordinate, Rings, Within;
    if AxisCovered(p.x, radius, size) && AxisCovered(p.y, radius, size) {
      forall q | Within(p, radius, q)
        ensures CellOf(q, size) in CellsWithin(p, radius, size)
      {
        WithinBox(p, radius, q);
        CandidateBounds(p, radius, size, CellOf(q, size));
        CoordinateOrder(p.x - radius, q.x, size);
        CoordinateOrder(q.x, p.x + radius, size);
        CoordinateOrder(p.y - radius, q.y, size);
        CoordinateOrder(q.y, p.y + radius, size);
      }
    } else {
      ExtremesWithin(p, radius);
      CandidateBounds(p, radius, size, CellOf(Point(p.x - radius, p.y, 0.0), size));
      CandidateBounds(p, radius, size, CellOf(Point(p.x + radius, p.y, 0.0), size));
      CandidateBounds(p, radius, size, CellOf(Point(p.x, p.y - radius, 0.0), size));
      CandidateBounds(p, radius, size, CellOf(Point(p.x, p.y + radius, 0.0), size));
    }
  }

  lemma WithinBox(p: Point, radius: real, q: Point)
    requires radius >= 0.0 && Within(p, radius, q)
    ensures p.x - radius <= q.x <= p.x + radius && p.y - radius <= q.y <= p.y + radius
  {
    SquareBounds(q.x - p.x, q.y - p.y, radius);
    SquareBounds(q.y - p.y, q.x - p.x, radius);
  }

  lemma ExtremesWithin(p: Point, radius: real)
    ensures Within(p, radius, Point(p.x - radius, p.y, 0.0)) && Within(p, radius, Point(p.x + radius, p.y, 0.0))
    ensures Within(p, radius, Point(p.x, p.y - radius, 0.0)) && Within(p, radius, Point(p.x, p.y + radius, 0.0))
  {
    assert (-radius) * (-radius) == radius * radius;
  }

  lemma CandidateBounds(p: Point, radius: real, size: real, c: Cell)
    requires size > 0.0 && radius >= 0.0
    ensures var k := if Rings(radius, size) > I32_MAX then I32_MAX else Rings(radius, size);
      c in CellsWithin(p, radius, size) <==>
        && Coordinate(p.x, size) - k <= c.x <= Coordinate(p.x, size) + k
        && Coordinate(p.y, size) - k <= c.y <= Coordinate(p.y, size) + k
  {
    hide NeighborhoodRadius, Coordinate, Rings;
    AboutNeighborhood(CellOf(p, size), Rings(radius, size), c);
  }

  /** Up to 2147483647 rings the condition always holds, saturated positions included. */
  lemma ModerateRadiiAreCovered(a: real, radius: real, size: real)
    requires size > 0.0 && radius >= 0.0 && Ceiling(radius / size) <= I32_MAX
    ensures AxisCovered(a, radius, size)
  {
    hide Coordinate;
    DivideOrder(0.0, radius, size);
    assert 0.0 / size == 0.0;
    FloorSteps(0.0, radius / size);
    StepCrossesFewCells(a, radius, size);
  }

  /** The three-by-three query suffices when the range is at most the cell size. */
  lemma NineCellsSuffice(p: Point, radius: real, size: real, q: Point)
    requires 0.0 <= radius <= size && size > 0.0 && Within(p, radius, q)
    ensures CellOf(q, size) in Neighborhood(CellOf(p, size))
  {
    hide Ceiling, Coordinate, NeighborhoodRadius, CellsWithin, AxisCovered, Within;
    SmallRadius(radius, size);
    ModerateRadiiAreCovered(p.x, radius, size);
    ModerateRadiiAreCovered(p.y, radius, size);
    CandidatesCompleteIff(p, radius, size);
    CandidateBounds(p, radius, size, CellOf(q, size));
    AboutNeighborhood(CellOf(p, size), 1, CellOf(q, size));
  }

  lemma SmallRadius(radius: real, size: real)
    requires 0.0 <= radius <= size && size > 0.0
    ensures 0 <= Ceiling(radius / size) <= 1
  {
    DivideOrder(radius, size, size);
    DivideOrder(0.0, radius, size);
    assert size / size == 1.0 && 0.0 / size == 0.0;
  }

  // ---------- Grid search against brute force ----------

  /** Indices of the points of one cell within the radius, ascending. */
  function InCell(points: seq<Point>, n: nat, cell: Cell, p: Point, radius: real, size: real): seq<nat>
    requires size > 0.0 && n <= |points|
  {
    if n == 0 then []
    else
      InCell(points, n - 1, cell, p, radius, size)
      + if CellOf(points[n - 1], size) == cell && Within(p, radius, points[n - 1]) then [n - 1] else []
  }

  /** The candidates of each cell in turn, filtered by true distance. */
  function SearchCells(points: seq<Point>, cells: seq<Cell>, p: Point, radius: real, size: real): seq<nat>
    requires size > 0.0
  {
    if cells == [] then []
    else InCell(points, |points|, cells[0], p, radius, size) + SearchCells(points, cells[1..], p, radius, size)
  }

  ghost predicate NoRepeats(s: seq<nat>) {
    forall i, j :: 0 <= i < j < |s| ==> s[i] != s[j]
  }

  lemma {:induction false} AboutInCell(points: seq<Point>, n: nat, cell: Cell, p: Point, radius: real, size: real)
    requires size > 0.0 && n <= |points|
    ensures var s := InCell(points, n, cell, p, radius, size);
      && (forall i: nat :: i in s <==> i < n && CellOf(points[i], size) == cell && Within(p, radius, points[i]))
      && NoRepeats(s)
  {
    hide CellOf, Within;
    if n > 0 {
      AboutInCell(points, n - 1, cell, p, radius, size);
      var s := InCell(points, n - 1, cell, p, radius, size);
      assert n - 1 !in s;
    }
  }

  lemma {:induction false} AboutSearchCells(points: seq<Point>, cells: seq<Cell>, p: Point, radius: real, size: real)
    requires size > 0.0 && Ascending(cells)
    ensures var s := SearchCells(points, cells, p, radius, size);
      && (forall i: nat :: i in s <==> i < |points| && CellOf(points[i], size) in cells && Within(p, radius, points[i]))
      && NoRepeats(s)
  {
    hide CellOf, Within, InCell;
    if cells != [] {
      var first := InCell(points, |points|, cells[0], p, radius, size);
      var rest := SearchCells(points, cells[1..], p, radius, size);
      AboutInCell(points, |points|, cells[0], p, radius, size);
      AboutSearchCells(points, cells[1..], p, radius, size);
      assert cells == [cells[0]] + cells[1..];
      assert cells[0] !in cells[1..];
      forall i, j | 0 <= i < |first| && 0 <= j < |rest|
        ensures first[i] != rest[j]
      {
        assert first[i] in first && rest[j] in rest;
      }
    }
  }

  /** The search finds exactly what a scan of all points finds. */
  ghost predicate FindsWhatScanFinds(points: seq<Point>, p: Point, radius: real, size: real)
    requires size > 0.0 && radius >= 0.0
  {
    forall i: nat :: i in SearchCells(points, CellsWithin(p, radius, size), p, radius, size)
      <==> i < |points| && Within(p, radius, points[i])
  }

  lemma AboutSearch(points: seq<Point>, p: Point, radius: real, size: real)
    requires size > 0.0 && radius >= 0.0
    ensures var found := SearchCells(points, CellsWithin(p, radius, size), p, radius, size);
      && (forall i: nat :: i in found <==>
           i < |points| && CellOf(points[i], size) in CellsWithin(p, radius, size) && Within(p, radius, points[i]))
      && NoRepeats(found)
  {
    hide CellOf, SearchCells, Within, NeighborhoodRadius;
    NeighborhoodAscends(CellOf(p, size), Rings(radius, size));
    AboutSearchCells(points, CellsWithin(p, radius, size), p, radius, size);
  }

  /** Grid search agrees with a scan of all points, whatever the points, if and only if the
      candidate range is covered; and it never finds a point twice. */
  lemma SearchEqualsBruteForce(p: Point, radius: real, size: real)
    requires size > 0.0 && radius >= 0.0
    ensures (forall points :: FindsWhatScanFinds(points, p, radius, size))
      <==> AxisCovered(p.x, radius, size) && AxisCovered(p.y, radius, size)
    ensures forall points :: NoRepeats(SearchCells(points, CellsWithin(p, radius, size), p, radius, size))
  {
    hide CellOf, SearchCells, Within, CellsWithin, AxisCovered, NoRepeats;
    CandidatesCompleteIff(p, radius, size);
    forall points: seq<Point>
      ensures NoRepeats(SearchCells(points, CellsWithin(p, radius, size), p, radius, size))
    {
      AboutSearch(points, p, radius, size);
    }
    if AxisCovered(p.x, radius, size) && AxisCovered(p.y, radius, size) {
      forall points: seq<Point>
        ensures FindsWhatScanFinds(points, p, radius, size)
      {
        AboutSearch(points, p, radius, size);
      }
    } else {
      var q :| Within(p, radius, q) && CellOf(q, size) !in CellsWithin(p, radius, size);
      AboutSearch([q], p, radius, size);
      assert [q][0] == q && !FindsWhatScanFinds([q], p, radius, size);
    }
  }

  // ---------- Boxes ----------

  datatype Box = Box(min: Point, max: Point) {
    predicate IsEmpty() {
      min.x > max.x || min.y > max.y || min.z > max.z
    }

    predicate Contains2d(p: Point) {
      min.x <= p.x <= max.x && min.y <= p.y <= max.y
    }
  }

  function CellsInBox(b: Box, size: real): seq<Cell>
    requires size > 0.0
  {
    if b.IsEmpty() then Rectangle(0, -1, 0, -1)
    else Rectangle(CellOf(b.min, size).x, CellOf(b.max, size).x, CellOf(b.min, size).y, CellOf(b.max, size).y)
  }

  /** Any coordinate between the cells of two positions is the cell of a position between. */
  lemma CellIsReached(lo: real, hi: real, size: real, c: I32) returns (m: real)
    requires size > 0.0 && lo <= hi && Coordinate(lo, size) <= c <= Coordinate(hi, size)
    ensures lo <= m <= hi && Coordinate(m, size) == c
  {
    if c == Coordinate(lo, size) {
      m := lo;
    } else if c == Coordinate(hi, size) {
      m := hi;
    } else {
      m := c as real * size;
      assert m / size == c as real;
      if m < lo {
        CoordinateOrder(m, lo, size);
      }
      if hi < m {
        CoordinateOrder(hi, m, size);
      }
    }
  }

  /** A box query yields exactly the cells the box meets, in strictly ascending order, and
      nothing for an empty box. */
  lemma BoxCellsAreThoseMet(b: Box, size: real, c: Cell)
    requires size > 0.0
    ensures c in CellsInBox(b, size) <==> !b.IsEmpty() && exists q :: b.Contains2d(q) && CellOf(q, size) == c
    ensures Ascending(CellsInBox(b, size))
  {
    if b.IsEmpty() {
      AboutRectangle(0, -1, 0, -1);
    } else {
      AboutRectangle(CellOf(b.min, size).x, CellOf(b.max, size).x, CellOf(b.min, size).y, CellOf(b.max, size).y);
      if c in CellsInBox(b, size) {
        var x := CellIsReached(b.min.x, b.max.x, size, c.x);
        var y := CellIsReached(b.min.y, b.max.y, size, c.y);
        var q := Point(x, y, 0.0);
        assert b.Contains2d(q) && CellOf(q, size) == c;
      } else {
        forall q | b.Contains2d(q)
          ensures CellOf(q, size) != c
        {
          CoordinateOrder(b.min.x, q.x, size);
          CoordinateOrder(q.x, b.max.x, size);
          CoordinateOrder(b.min.y, q.y, size);
          CoordinateOrder(q.y, b.max.y, size);
        }
      }
    }
  }
}
