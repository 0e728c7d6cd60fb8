/**
 The occupancy grid of the heuristic control: `pointsToGrid` scales each
 selected dot into a cell of a rows x cols grid and marks that cell, and
 `gridDistance` counts the cells in which two grids differ.
 */
module Grid {
  import opened Board

  const GridRows := 5
  const GridCols := 3

  /** `g` has `rows` rows of `cols` cells each. */
  predicate Shaped(g: seq<seq<int>>, rows: nat, cols: nat)
  {
    |g| == rows && forall y :: 0 <= y < |g| ==> |g[y]| == cols
  }

  /** Every cell of `g` is 0 or 1. */
  predicate Binary(g: seq<seq<int>>)
  {
    forall y, x :: 0 <= y < |g| && 0 <= x < |g[y]| ==> g[y][x] == 0 || g[y][x] == 1
  }

  /** A rectangle that can be divided by: both extents at least one pixel. */
  predicate Proper(rect: Rect)
  {
    rect.width >= 1 && rect.height >= 1
  }

  function ZeroGrid(rows: nat, cols: nat): (g: seq<seq<int>>)
    ensures Shaped(g, rows, cols)
    ensures forall y, x :: 0 <= y < rows && 0 <= x < cols ==> g[y][x] == 0
  {
    seq(rows, _ => seq(cols, _ => 0))
  }

  /**
   `floor((v - origin) / extent * n)` over the integers: the cell, among `n`
   cells spread over `extent` pixels from `origin`, that holds coordinate `v`.
   Dafny's `/` rounds down when the divisor is positive, as `Math.floor` does.
   */
  function CellIndex(v: int, origin: int, extent: int, n: nat): (r: int)
    requires extent >= 1
    ensures n >= 1 ==> (0 <= r <==> origin <= v)
    ensures n >= 1 ==> (r < n <==> v < origin + extent)
    ensures v == origin + extent ==> r == n
  {
    CellIndexBounds(v, origin, extent, n);
    ((v - origin) * n) / extent
  }

  /** For a positive factor, products compare as the other factors do. */
  lemma MulCompare(a: int, b: int, c: int)
    requires a >= 1
    ensures a * b < a * c <==> b < c
  {
    assert a * c - a * b == a * (c - b);
    if b < c {
      assert a * (c - b) >= c - b;
    } else {
      assert a * (b - c) >= 0;
    }
  }

  /** For a positive divisor, the floored quotient is below `n` exactly when the dividend is below `e * n`. */
  lemma DivBelow(m: int, e: int, n: int)
    requires e >= 1
    ensures m / e < n <==> m < e * n
  {
    var q, rem := m / e, m % e;
    assert m == e * q + rem && 0 <= rem < e;
    if q < n {
      MulCompare(e, q, n);
      MulCompare(e, n - 1, q);
      assert e * (n - 1) == e * n - e;
    } else {
      MulCompare(e, q, n);
    }
  }

  lemma CellIndexBounds(v: int, origin: int, extent: int, n: nat)
    requires extent >= 1
    ensures n >= 1 ==> (0 <= ((v - origin) * n) / extent <==> origin <= v)
    ensures n >= 1 ==> (((v - origin) * n) / extent < n <==> v < origin + extent)
    ensures v == origin + extent ==> ((v - origin) * n) / extent == n
  {
    var d := v - origin;
    var m := d * n;
    DivBelow(m, extent, 0);
    DivBelow(m, extent, n);
    DivBelow(m, extent, n + 1);
    assert extent * (n + 1) == extent * n + extent;
    if n >= 1 {
      MulCompare(n, d, 0);
      MulCompare(n, d, extent);
      assert m == n * d && extent * n == n * extent;
    }
    if d == extent {
      assert m == extent * n;
    }
  }

  /** The row `gy` of the cell a point falls in. */
  function RowOf(p: Point, rect: Rect, rows: nat): int
    requires Proper(rect)
  {
    CellIndex(p.y, rect.top, rect.height, rows)
  }

  /** The column `gx` of the cell a point falls in. */
  function ColOf(p: Point, rect: Rect, cols: nat): int
    requires Proper(rect)
  {
    CellIndex(p.x, rect.left, rect.width, cols)
  }

  /** Point `p` falls in cell (y, x). */
  predicate MapsTo(p: Point, rect: Rect, rows: nat, cols: nat, y: int, x: int)
    requires Proper(rect)
  {
    RowOf(p, rect, rows) == y && ColOf(p, rect, cols) == x
  }

  /** Point `p` falls inside the grid at all (otherwise it is dropped). */
  predicate Lands(p: Point, rect: Rect, rows: nat, cols: nat)
    requires Proper(rect)
  {
    0 <= RowOf(p, rect, rows) < rows && 0 <= ColOf(p, rect, cols) < cols
  }

  /** Some point falls in cell (y, x). */
  predicate Occupied(points: seq<Point>, rect: Rect, rows: nat, cols: nat, y: int, x: int)
    requires Proper(rect)
  {
    exists k :: 0 <= k < |points| && MapsTo(points[k], rect, rows, cols, y, x)
  }

  /**
   The grid `pointsToGrid` is meant to build: a cell holds 1 exactly when some
   point falls in it, and 0 otherwise.
   */
  function Occupancy(points: seq<Point>, rect: Rect, rows: nat, cols: nat): (g: seq<seq<int>>)
    requires Proper(rect)
    ensures Shaped(g, rows, cols) && Binary(g)
  {
    seq(rows, y => seq(cols, x => if Occupied(points, rect, rows, cols, y, x) then 1 else 0))
  }

  /** Adding a point marks its own cell if it lands, and nothing else. */
  lemma OccupiedAppend(points: seq<Point>, p: Point, rect: Rect, rows: nat, cols: nat, y: int, x: int)
    requires Proper(rect)
    ensures Occupied(points + [p], rect, rows, cols, y, x) <==>
            Occupied(points, rect, rows, cols, y, x) || MapsTo(p, rect, rows, cols, y, x)
  {
    var q := points + [p];
    if Occupied(q, rect, rows, cols, y, x) {
      var k :| 0 <= k < |q| && MapsTo(q[k], rect, rows, cols, y, x);
      if k < |points| {
        assert q[k] == points[k];
      }
    }
    if Occupied(points, rect, rows, cols, y, x) {
      var k :| 0 <= k < |points| && MapsTo(points[k], rect, rows, cols, y, x);
      assert q[k] == points[k];
    }
    if MapsTo(p, rect, rows, cols, y, x) {
      assert q[|points|] == p;
    }
  }

  /**
   The grid after one more point: the point's cell set to 1 when the point
   lands inside the grid, the same grid when it does not.
   */
  lemma {:induction false} OccupancyAppend(points: seq<Point>, p: Point, rect: Rect, rows: nat, cols: nat)
    requires Proper(rect)
    ensures var g := Occupancy(points, rect, rows, cols);
            var gy := RowOf(p, rect, rows);
            var gx := ColOf(p, rect, cols);
            Occupancy(points + [p], rect, rows, cols) ==
              if 0 <= gx < cols && 0 <= gy < rows then g[gy := g[gy][gx := 1]] else g
  {
    var g := Occupancy(points, rect, rows, cols);
    var h := Occupancy(points + [p], rect, rows, cols);
    var gy := RowOf(p, rect, rows);
    var gx := ColOf(p, rect, cols);
    var expected := if 0 <= gx < cols && 0 <= gy < rows then g[gy := g[gy][gx := 1]] else g;
    forall y | 0 <= y < rows
      ensures h[y] == expected[y]
    {
      forall x | 0 <= x < cols
        ensures h[y][x] == expected[y][x]
      {
        OccupiedAppend(points, p, rect, rows, cols, y, x);
      }
    }
  }

  /** No point, no mark: the all-zero grid. */
  lemma OccupancyEmpty(rect: Rect, rows: nat, cols: nat)
    requires Proper(rect)
    ensures Occupancy([], rect, rows, cols) == ZeroGrid(rows, cols)
  {
    var g := Occupancy([], rect, rows, cols);
    forall y | 0 <= y < rows
      ensures g[y] == ZeroGrid(rows, cols)[y]
    {
    }
  }

  /**
   `pointsToGrid`: start from the all-zero grid and, point by point, set the
   cell the point falls in, dropping a point whose cell lies outside the grid.
   */
  method PointsToGrid(points: seq<Point>, rect: Rect, rows: nat, cols: nat) returns (grid: seq<seq<int>>)
    requires Proper(rect)
    ensures grid == Occupancy(points, rect, rows, cols)
  {
    grid := ZeroGrid(rows, cols);
    OccupancyEmpty(rect, rows, cols);
    for k := 0 to |points|
      invariant grid == Occupancy(points[..k], rect, rows, cols)
    {
      var p := points[k];
      var gx := CellIndex(p.x, rect.left, rect.width, cols);
      var gy := CellIndex(p.y, rect.top, rect.height, rows);
      OccupancyAppend(points[..k], p, rect, rows, cols);
      if 0 <= gx < cols && 0 <= gy < rows {
        grid := grid[gy := grid[gy][gx := 1]];
      }
      assert points[..k + 1] == points[..k] + [p];
    }
    assert points[..|points|] == points;
  }

  /**
   Marking is an OR: the grid depends only on which points there are, not on
   their order or on how often each appears.
   */
  lemma {:induction false} OccupancyOrderFree(points: seq<Point>, others: seq<Point>, rect: Rect, rows: nat, cols: nat)
    requires Proper(rect)
    requires forall p :: p in points <==> p in others
    ensures Occupancy(points, rect, rows, cols) == Occupancy(others, rect, rows, cols)
  {
    var g := Occupancy(points, rect, rows, cols);
    var h := Occupancy(others, rect, rows, cols);
    forall y | 0 <= y < rows
      ensures g[y] == h[y]
    {
      forall x | 0 <= x < cols
        ensures g[y][x] == h[y][x]
      {
        if Occupied(points, rect, rows, cols, y, x) {
          var k :| 0 <= k < |points| && MapsTo(points[k], rect, rows, cols, y, x);
          assert points[k] in others;
          var k' :| 0 <= k' < |others| && others[k'] == points[k];
        }
        if Occupied(others, rect, rows, cols, y, x) {
          var k :| 0 <= k < |others| && MapsTo(others[k], rect, rows, cols, y, x);
          assert others[k] in points;
          var k' :| 0 <= k' < |points| && points[k'] == others[k];
        }
      }
    }
  }

  /**
   A point that falls in a cell some other point already marked, or that falls
   outside the grid, leaves the grid as it was.
   */
  lemma OccupancyAbsorbs(points: seq<Point>, p: Point, rect: Rect, rows: nat, cols: nat)
    requires Proper(rect)
    requires !Lands(p, rect, rows, cols) || Occupied(points, rect, rows, cols, RowOf(p, rect, rows), ColOf(p, rect, cols))
    ensures Occupancy(points + [p], rect, rows, cols) == Occupancy(points, rect, rows, cols)
  {
    OccupancyAppend(points, p, rect, rows, cols);
    var g := Occupancy(points, rect, rows, cols);
    if Lands(p, rect, rows, cols) {
      var gy := RowOf(p, rect, rows);
      var gx := ColOf(p, rect, cols);
      assert g[gy][gx] == 1;
      assert g[gy][gx := 1] == g[gy];
    }
  }

  /**
   A single point strictly inside the rectangle marks exactly one cell, the
   one its scaled coordinates name.
   */
  lemma SinglePoint(p: Point, rect: Rect, rows: nat, cols: nat)
    requires Proper(rect) && rows >= 1 && cols >= 1
    requires rect.left <= p.x < rect.left + rect.width && rect.top <= p.y < rect.top + rect.height
    ensures var g := Occupancy([p], rect, rows, cols);
            var gy := RowOf(p, rect, rows);
            var gx := ColOf(p, rect, cols);
            0 <= gy < rows && 0 <= gx < cols && g[gy][gx] == 1 &&
            forall y, x :: 0 <= y < rows && 0 <= x < cols && (y, x) != (gy, gx) ==> g[y][x] == 0
  {
    var g := Occupancy([p], rect, rows, cols);
    assert [p][0] == p;
    assert MapsTo([p][0], rect, rows, cols, RowOf(p, rect, rows), ColOf(p, rect, cols));
  }

  /**
   Five dots on the vertical line x = 1 of a 3 x 5 pixel rectangle fill rows
   1 to 4 of the middle column, and the dot on the bottom edge is dropped.
   */
  lemma VerticalLineExample()
    ensures Occupancy([Point(1, 1), Point(1, 2), Point(1, 3), Point(1, 4), Point(1, 5)], Rect(0, 0, 3, 5), GridRows, GridCols)
            == [[0,0,0], [0,1,0], [0,1,0], [0,1,0], [0,1,0]]
  {
    var line := [Point(1, 1), Point(1, 2), Point(1, 3), Point(1, 4), Point(1, 5)];
    var box := Rect(0, 0, 3, 5);
    var g := Occupancy(line, box, GridRows, GridCols);
    var expected := [[0,0,0], [0,1,0], [0,1,0], [0,1,0], [0,1,0]];
    assert MapsTo(line[0], box, GridRows, GridCols, 1, 1);
    assert MapsTo(line[1], box, GridRows, GridCols, 2, 1);
    assert MapsTo(line[2], box, GridRows, GridCols, 3, 1);
    assert MapsTo(line[3], box, GridRows, GridCols, 4, 1);
    assert !Lands(line[4], box, GridRows, GridCols);
    forall y, x | 0 <= y < GridRows && 0 <= x < GridCols
      ensures g[y][x] == expected[y][x]
    {
      if Occupied(line, box, GridRows, GridCols, y, x) {
        var k :| 0 <= k < |line| && MapsTo(line[k], box, GridRows, GridCols, y, x);
        assert k == 0 || k == 1 || k == 2 || k == 3 || k == 4;
      }
    }
    assert forall y :: 0 <= y < GridRows ==> g[y] == expected[y];
  }

  /** 1 when two cells differ (`a[y][x] !== b[y][x]`), 0 when they agree. */
  function CellDiff(u: int, v: int): nat
  {
    if u != v then 1 else 0
  }

  /** Number of positions at which two rows of equal length differ. */
  function RowDiff(r: seq<int>, s: seq<int>): nat
    requires |r| == |s|
  {
    if r == [] then 0
    else RowDiff(r[..|r| - 1], s[..|s| - 1]) + CellDiff(r[|r| - 1], s[|s| - 1])
  }

  /** Two grids with the same number of rows and equally long rows. */
  predicate SameShape(a: seq<seq<int>>, b: seq<seq<int>>)
  {
    |a| == |b| && forall y :: 0 <= y < |a| ==> |a[y]| == |b[y]|
  }

  /** Hamming distance: number of cells at which two equally shaped grids differ. */
  function Hamming(a: seq<seq<int>>, b: seq<seq<int>>): nat
    requires SameShape(a, b)
  {
    if a == [] then 0
    else Hamming(a[..|a| - 1], b[..|b| - 1]) + RowDiff(a[|a| - 1], b[|b| - 1])
  }

  /** All rows of `g` as long as the first (the loop bound `a[0].length`). */
  predicate Rectangular(g: seq<seq<int>>)
  {
    forall y :: 0 <= y < |g| ==> |g[y]| == |g[0]|
  }

  /**
   `gridDistance`: walk the rows of `a` and, in each, the columns of its
   first row, counting the cells where `a` and `b` disagree.
   */
  method GridDistance(a: seq<seq<int>>, b: seq<seq<int>>) returns (dist: nat)
    requires Rectangular(a) && SameShape(a, b)
    ensures dist == Hamming(a, b)
  {
    dist := 0;
    for y := 0 to |a|
      invariant dist == Hamming(a[..y], b[..y])
    {
      for x := 0 to |a[0]|
        invariant dist == Hamming(a[..y], b[..y]) + RowDiff(a[y][..x], b[y][..x])
      {
        if a[y][x] != b[y][x] {
          dist := dist + 1;
        }
        assert a[y][..x + 1][..x] == a[y][..x];
        assert b[y][..x + 1][..x] == b[y][..x];
      }
      assert a[y][..|a[y]|] == a[y] && b[y][..|b[y]|] == b[y];
      assert a[..y + 1][..y] == a[..y] && b[..y + 1][..y] == b[..y];
    }
    assert a[..|a|] == a && b[..|b|] == b;
  }

  lemma {:induction false} RowDiffSymmetric(r: seq<int>, s: seq<int>)
    requires |r| == |s|
    ensures RowDiff(r, s) == RowDiff(s, r)
  {
    if r != [] {
      RowDiffSymmetric(r[..|r| - 1], s[..|s| - 1]);
    }
  }

  /** The distance does not depend on which grid comes first. */
  lemma {:induction false} HammingSymmetric(a: seq<seq<int>>, b: seq<seq<int>>)
    requires SameShape(a, b)
    ensures Hamming(a, b) == Hamming(b, a)
  {
    if a != [] {
      HammingSymmetric(a[..|a| - 1], b[..|b| - 1]);
      RowDiffSymmetric(a[|a| - 1], b[|b| - 1]);
    }
  }

  lemma {:induction false} RowDiffZero(r: seq<int>, s: seq<int>)
    requires |r| == |s|
    ensures RowDiff(r, s) == 0 <==> r == s
  {
    if r != [] {
      RowDiffZero(r[..|r| - 1], s[..|s| - 1]);
      assert r == r[..|r| - 1] + [r[|r| - 1]];
      assert s == s[..|s| - 1] + [s[|s| - 1]];
    }
  }

  /** The distance is zero exactly for identical grids. */
  lemma {:induction false} HammingZero(a: seq<seq<int>>, b: seq<seq<int>>)
    requires SameShape(a, b)
    ensures Hamming(a, b) == 0 <==> a == b
  {
    if a != [] {
      HammingZero(a[..|a| - 1], b[..|b| - 1]);
      RowDiffZero(a[|a| - 1], b[|b| - 1]);
      assert a == a[..|a| - 1] + [a[|a| - 1]];
      assert b == b[..|b| - 1] + [b[|b| - 1]];
    }
  }

  lemma {:induction false} RowDiffBound(r: seq<int>, s: seq<int>)
    requires |r| == |s|
    ensures RowDiff(r, s) <= |r|
  {
    if r != [] {
      RowDiffBound(r[..|r| - 1], s[..|s| - 1]);
    }
  }

  /** Two rows x cols grids differ in at most rows * cols cells. */
  lemma {:induction false} HammingBound(a: seq<seq<int>>, b: seq<seq<int>>, rows: nat, cols: nat)
    requires Shaped(a, rows, cols) && Shaped(b, rows, cols)
    ensures Hamming(a, b) <= rows * cols
  {
    if a != [] {
      HammingBound(a[..|a| - 1], b[..|b| - 1], rows - 1, cols);
      RowDiffBound(a[|a| - 1], b[|b| - 1]);
      assert (rows - 1) * cols + cols == rows * cols;
    }
  }

  lemma {:induction false} RowDiffTriangle(r: seq<int>, s: seq<int>, t: seq<int>)
    requires |r| == |s| == |t|
    ensures RowDiff(r, t) <= RowDiff(r, s) + RowDiff(s, t)
  {
    if r != [] {
      RowDiffTriangle(r[..|r| - 1], s[..|s| - 1], t[..|t| - 1]);
    }
  }

  /** The triangle inequality: the distance is a metric on grids of one shape. */
  lemma {:induction false} HammingTriangle(a: seq<seq<int>>, b: seq<seq<int>>, c: seq<seq<int>>)
    requires SameShape(a, b) && SameShape(b, c)
    ensures Hamming(a, c) <= Hamming(a, b) + Hamming(b, c)
  {
    if a != [] {
      HammingTriangle(a[..|a| - 1], b[..|b| - 1], c[..|c| - 1]);
      RowDiffTriangle(a[|a| - 1], b[|b| - 1], c[|c| - 1]);
    }
  }
}
