/**
 The right-most and bottom-most selected dots never reach the grid.  The
 bounding box runs from the least to the greatest coordinate, so a dot on its
 far edge scales to index `cols` (or `rows`), one past the last cell, and is
 dropped (`Heuristics.FarEdgeDropped`).  Dots laid out exactly as a digit's
 template therefore lose their right column and bottom row: the layout of 3
 is read as 7.  Counting the box in whole pixels, one wider and one higher,
 lets every selected dot land, and the same layout is read as 3;
 `RecogniseCorrected` is the release handler with that box.
 */
module Findings {
  import opened Board
  import opened Grid
  import opened Templates
  import opened Heuristics

  lemma RowDiffOfThree(r: seq<int>, s: seq<int>)
    requires |r| == 3 && |s| == 3
    ensures RowDiff(r, s) == CellDiff(r[0], s[0]) + CellDiff(r[1], s[1]) + CellDiff(r[2], s[2])
  {
    assert r[..2][..1] == r[..1] && s[..2][..1] == s[..1];
    assert r[..1][..0] == [] && s[..1][..0] == [];
    assert RowDiff(r[..1], s[..1]) == CellDiff(r[0], s[0]);
    assert RowDiff(r[..2], s[..2]) == RowDiff(r[..1], s[..1]) + CellDiff(r[1], s[1]);
    assert r[..3] == r && s[..3] == s;
  }

  /** The distance between two 5 x 3 grids, cell by cell. */
  lemma HammingOfFiveByThree(a: seq<seq<int>>, b: seq<seq<int>>)
    requires Shaped(a, 5, 3) && Shaped(b, 5, 3)
    ensures Hamming(a, b) ==
      CellDiff(a[0][0], b[0][0]) + CellDiff(a[0][1], b[0][1]) + CellDiff(a[0][2], b[0][2]) +
      CellDiff(a[1][0], b[1][0]) + CellDiff(a[1][1], b[1][1]) + CellDiff(a[1][2], b[1][2]) +
      CellDiff(a[2][0], b[2][0]) + CellDiff(a[2][1], b[2][1]) + CellDiff(a[2][2], b[2][2]) +
      CellDiff(a[3][0], b[3][0]) + CellDiff(a[3][1], b[3][1]) + CellDiff(a[3][2], b[3][2]) +
      CellDiff(a[4][0], b[4][0]) + CellDiff(a[4][1], b[4][1]) + CellDiff(a[4][2], b[4][2])
  {
    RowDiffOfThree(a[0], b[0]);
    RowDiffOfThree(a[1], b[1]);
    RowDiffOfThree(a[2], b[2]);
    RowDiffOfThree(a[3], b[3]);
    RowDiffOfThree(a[4], b[4]);
    assert a[..1][..0] == [] && b[..1][..0] == [];
    assert Hamming(a[..1], b[..1]) == RowDiff(a[0], b[0]);
    assert a[..2][..1] == a[..1] && b[..2][..1] == b[..1];
    assert Hamming(a[..2], b[..2]) == Hamming(a[..1], b[..1]) + RowDiff(a[1], b[1]);
    assert a[..3][..2] == a[..2] && b[..3][..2] == b[..2];
    assert Hamming(a[..3], b[..3]) == Hamming(a[..2], b[..2]) + RowDiff(a[2], b[2]);
    assert a[..4][..3] == a[..3] && b[..4][..3] == b[..3];
    assert Hamming(a[..4], b[..4]) == Hamming(a[..3], b[..3]) + RowDiff(a[3], b[3]);
    assert a[..5] == a && b[..5] == b;
  }

  /** Centres of eleven dots laid out exactly as the template of 3, ten pixels apart. */
  const ThreeLayout: seq<Point> := [
    Point(10, 10), Point(20, 10), Point(30, 10),
                                  Point(30, 20),
    Point(10, 30), Point(20, 30), Point(30, 30),
                                  Point(30, 40),
    Point(10, 50), Point(20, 50), Point(30, 50)
  ]

  /** What the recogniser builds from that layout: its right column and bottom row are gone. */
  const ThreeLayoutGrid: seq<seq<int>> := [[1,1,0], [0,0,0], [1,1,0], [0,0,0], [0,0,0]]

  lemma ThreeLayoutBox()
    ensures BoundingBox(ThreeLayout) == Rect(10, 10, 20, 40)
  {
    var l := ThreeLayout;
    assert l[0].x == 10 && l[2].x == 30 && l[0].y == 10 && l[8].y == 50;
    BoundingBoxOfExtremes(l, 10, 30, 10, 50);
  }

  /** The cell every dot of the layout falls in, as written. */
  lemma ThreeLayoutCells(p: Point)
    requires p in ThreeLayout
    ensures var box := Rect(10, 10, 20, 40);
            Lands(p, box, GridRows, GridCols) ==>
              ThreeLayoutGrid[RowOf(p, box, GridRows)][ColOf(p, box, GridCols)] == 1
  {
  }

  lemma ThreeLayoutOccupancy()
    ensures Occupancy(ThreeLayout, Rect(10, 10, 20, 40), GridRows, GridCols) == ThreeLayoutGrid
  {
    var box := Rect(10, 10, 20, 40);
    var g := Occupancy(ThreeLayout, box, GridRows, GridCols);
    forall y, x | 0 <= y < GridRows && 0 <= x < GridCols
      ensures g[y][x] == ThreeLayoutGrid[y][x]
    {
      if Occupied(ThreeLayout, box, GridRows, GridCols, y, x) {
        var k :| 0 <= k < |ThreeLayout| && MapsTo(ThreeLayout[k], box, GridRows, GridCols, y, x);
        ThreeLayoutCells(ThreeLayout[k]);
      }
      if ThreeLayoutGrid[y][x] == 1 {
        var k := if y == 0 then x else 4 + x;
        assert MapsTo(ThreeLayout[k], box, GridRows, GridCols, y, x);
      }
    }
    assert forall y :: 0 <= y < GridRows ==> g[y] == ThreeLayoutGrid[y];
  }

  lemma ThreeLayoutDistancesA()
    ensures Hamming(ThreeLayoutGrid, DigitTemplates[0]) == 10
         && Hamming(ThreeLayoutGrid, DigitTemplates[1]) == 8
         && Hamming(ThreeLayoutGrid, DigitTemplates[2]) == 7
  {
    HammingOfFiveByThree(ThreeLayoutGrid, DigitTemplates[0]);
    HammingOfFiveByThree(ThreeLayoutGrid, DigitTemplates[1]);
    HammingOfFiveByThree(ThreeLayoutGrid, DigitTemplates[2]);
  }

  lemma ThreeLayoutDistancesB()
    ensures Hamming(ThreeLayoutGrid, DigitTemplates[3]) == 7
         && Hamming(ThreeLayoutGrid, DigitTemplates[4]) == 7
  {
    HammingOfFiveByThree(ThreeLayoutGrid, DigitTemplates[3]);
    HammingOfFiveByThree(ThreeLayoutGrid, DigitTemplates[4]);
  }

  lemma ThreeLayoutDistancesC()
    ensures Hamming(ThreeLayoutGrid, DigitTemplates[5]) == 7
         && Hamming(ThreeLayoutGrid, DigitTemplates[6]) == 8
         && Hamming(ThreeLayoutGrid, DigitTemplates[7]) == 5
  {
    HammingOfFiveByThree(ThreeLayoutGrid, DigitTemplates[5]);
    HammingOfFiveByThree(ThreeLayoutGrid, DigitTemplates[6]);
    HammingOfFiveByThree(ThreeLayoutGrid, DigitTemplates[7]);
  }

  lemma ThreeLayoutDistancesD()
    ensures Hamming(ThreeLayoutGrid, DigitTemplates[8]) == 9
         && Hamming(ThreeLayoutGrid, DigitTemplates[9]) == 8
  {
    HammingOfFiveByThree(ThreeLayoutGrid, DigitTemplates[8]);
    HammingOfFiveByThree(ThreeLayoutGrid, DigitTemplates[9]);
  }

  /** No template is nearer to that grid than the one of 7, and the earlier ones are farther. */
  lemma ThreeLayoutSevenBeats(i: nat)
    requires i < |DigitTemplates|
    ensures Hamming(ThreeLayoutGrid, DigitTemplates[7]) <= Hamming(ThreeLayoutGrid, DigitTemplates[i])
    ensures i < 7 ==> Hamming(ThreeLayoutGrid, DigitTemplates[7]) < Hamming(ThreeLayoutGrid, DigitTemplates[i])
  {
    ThreeLayoutDistancesC();
    if i < 3 {
      ThreeLayoutDistancesA();
      assert i == 0 || i == 1 || i == 2;
    } else if i < 5 {
      ThreeLayoutDistancesB();
      assert i == 3 || i == 4;
    } else if i < 8 {
      assert i == 5 || i == 6 || i == 7;
    } else {
      ThreeLayoutDistancesD();
      assert i == 8 || i == 9;
    }
  }

  /** 7 is the only template nearest to that grid. */
  lemma ThreeLayoutNearestSeven()
    ensures IsFirstNearest(ThreeLayoutGrid, 7)
  {
    forall i | 0 <= i < |DigitTemplates|
      ensures Hamming(ThreeLayoutGrid, DigitTemplates[7]) <= Hamming(ThreeLayoutGrid, DigitTemplates[i])
      ensures i < 7 ==> Hamming(ThreeLayoutGrid, DigitTemplates[7]) < Hamming(ThreeLayoutGrid, DigitTemplates[i])
    {
      ThreeLayoutSevenBeats(i);
    }
  }

  /** As written: the dots of a 3 are read as the digit 7. */
  lemma ThreeLayoutReadAsSeven()
    ensures Occupancy(ThreeLayout, BoundingBox(ThreeLayout), GridRows, GridCols) == ThreeLayoutGrid
    ensures IsFirstNearest(ThreeLayoutGrid, 7)
  {
    ThreeLayoutBox();
    ThreeLayoutOccupancy();
    ThreeLayoutNearestSeven();
  }

  /**
   The bounding box made one pixel wider and one pixel higher, so that it
   counts the far column and row too (`maxX - minX + 1` pixels when the
   centres spread, 2 when they share one column).  Every selected dot then
   lies strictly before its far edges.
   */
  function InclusiveBox(points: seq<Point>): (r: Rect)
    requires points != []
    ensures Proper(r)
    ensures forall p :: p in points ==> r.left <= p.x < r.left + r.width && r.top <= p.y < r.top + r.height
  {
    var box := BoundingBox(points);
    Rect(box.left, box.top, box.width + 1, box.height + 1)
  }

  /** Corrected: every selected dot marks a cell of the grid. */
  lemma InclusiveBoxKeepsEveryDot(points: seq<Point>, rows: nat, cols: nat)
    requires points != [] && rows >= 1 && cols >= 1
    ensures forall p :: p in points ==> Lands(p, InclusiveBox(points), rows, cols)
    ensures forall p :: p in points ==>
              var g := Occupancy(points, InclusiveBox(points), rows, cols);
              g[RowOf(p, InclusiveBox(points), rows)][ColOf(p, InclusiveBox(points), cols)] == 1
  {
    var box := InclusiveBox(points);
    forall p | p in points
      ensures Lands(p, box, rows, cols)
      ensures Occupied(points, box, rows, cols, RowOf(p, box, rows), ColOf(p, box, cols))
    {
      var k :| 0 <= k < |points| && points[k] == p;
      assert MapsTo(points[k], box, rows, cols, RowOf(p, box, rows), ColOf(p, box, cols));
    }
  }

  /** The cell every dot of the layout falls in, in the whole-pixel box. */
  lemma ThreeLayoutInclusiveCells(p: Point)
    requires p in ThreeLayout
    ensures var box := Rect(10, 10, 21, 41);
            Lands(p, box, GridRows, GridCols) &&
            DigitTemplates[3][RowOf(p, box, GridRows)][ColOf(p, box, GridCols)] == 1
  {
  }

  lemma ThreeLayoutInclusiveOccupancy()
    ensures Occupancy(ThreeLayout, Rect(10, 10, 21, 41), GridRows, GridCols) == DigitTemplates[3]
  {
    var box := Rect(10, 10, 21, 41);
    var g := Occupancy(ThreeLayout, box, GridRows, GridCols);
    var t := DigitTemplates[3];
    assert MapsTo(ThreeLayout[0], box, GridRows, GridCols, 0, 0);
    assert MapsTo(ThreeLayout[1], box, GridRows, GridCols, 0, 1);
    assert MapsTo(ThreeLayout[2], box, GridRows, GridCols, 0, 2);
    assert MapsTo(ThreeLayout[3], box, GridRows, GridCols, 1, 2);
    assert MapsTo(ThreeLayout[4], box, GridRows, GridCols, 2, 0);
    assert MapsTo(ThreeLayout[5], box, GridRows, GridCols, 2, 1);
    assert MapsTo(ThreeLayout[6], box, GridRows, GridCols, 2, 2);
    assert MapsTo(ThreeLayout[7], box, GridRows, GridCols, 3, 2);
    assert MapsTo(ThreeLayout[8], box, GridRows, GridCols, 4, 0);
    assert MapsTo(ThreeLayout[9], box, GridRows, GridCols, 4, 1);
    assert MapsTo(ThreeLayout[10], box, GridRows, GridCols, 4, 2);
    forall y, x | 0 <= y < GridRows && 0 <= x < GridCols
      ensures g[y][x] == t[y][x]
    {
      if Occupied(ThreeLayout, box, GridRows, GridCols, y, x) {
        var k :| 0 <= k < |ThreeLayout| && MapsTo(ThreeLayout[k], box, GridRows, GridCols, y, x);
        ThreeLayoutInclusiveCells(ThreeLayout[k]);
      }
    }
    assert forall y :: 0 <= y < GridRows ==> g[y] == t[y];
  }

  /** Corrected: the dots of a 3 give exactly the template of 3, and are read as 3. */
  lemma ThreeLayoutReadAsThree()
    ensures Occupancy(ThreeLayout, InclusiveBox(ThreeLayout), GridRows, GridCols) == DigitTemplates[3]
    ensures IsFirstNearest(DigitTemplates[3], 3)
  {
    ThreeLayoutBox();
    assert InclusiveBox(ThreeLayout) == Rect(10, 10, 21, 41);
    ThreeLayoutInclusiveOccupancy();
    TemplateRecognised(3);
  }

  /**
   The release handler with the whole-pixel box: the same selection, grid and
   template scan as `Heuristics.Recognise`, but no selected dot is lost.
   */
  method RecogniseCorrected(corners: seq<Point>, sel: Rect) returns (digit: nat)
    ensures digit < 10
    ensures var selected := Selected(corners, sel);
            |selected| < 2 ==> digit == 0
    ensures var selected := Selected(corners, sel);
            |selected| >= 2 ==>
              IsFirstNearest(Occupancy(selected, InclusiveBox(selected), GridRows, GridCols), digit)
  {
    var selectedDots := SelectDots(corners, sel);
    digit := 0;
    if |selectedDots| >= 2 {
      var box := InclusiveBox(selectedDots);
      var grid := PointsToGrid(selectedDots, box, GridRows, GridCols);
      digit := Classify(grid);
    }
  }

  /** A board whose dots, at these corners, are laid out as the template of 3. */
  const ThreeBoard: seq<Point> := [
    Point(0, 0), Point(10, 0), Point(20, 0),
                               Point(20, 10),
    Point(0, 20), Point(10, 20), Point(20, 20),
                                 Point(20, 30),
    Point(0, 40), Point(10, 40), Point(20, 40)
  ]

  /** A selection box around the whole of that board. */
  const ThreeBoardSelection := Rect(0, 0, 100, 100)

  /** Selecting the whole board gives the centres of the layout, in order. */
  lemma ThreeBoardSelects()
    ensures Selected(ThreeBoard, ThreeBoardSelection) == ThreeLayout
  {
    forall i | 0 <= i < |ThreeBoard|
      ensures Contains(ThreeBoardSelection, Centre(ThreeBoard[i]))
      ensures Centre(ThreeBoard[i]) == ThreeLayout[i]
    {
    }
    SelectedAll(ThreeBoard, ThreeBoardSelection);
  }

  /** As written, end to end: releasing the box over the dots of a 3 sets the digit 7. */
  method RecogniseThreeBoard() returns (digit: nat)
    ensures digit == 7
  {
    digit := Recognise(ThreeBoard, ThreeBoardSelection);
    ThreeBoardSelects();
    ThreeLayoutReadAsSeven();
    FirstNearestUnique(ThreeLayoutGrid, digit, 7);
  }

  /** Corrected, end to end: the same release sets the digit 3. */
  method RecogniseCorrectedThreeBoard() returns (digit: nat)
    ensures digit == 3
  {
    digit := RecogniseCorrected(ThreeBoard, ThreeBoardSelection);
    ThreeBoardSelects();
    ThreeLayoutReadAsThree();
    FirstNearestUnique(DigitTemplates[3], digit, 3);
  }
}
