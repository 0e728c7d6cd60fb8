/**
 The recogniser of the heuristic control, run when a selection box is
 released: collect the centres of the dots in the box, normalise them to their
 bounding box, build the 5 x 3 occupancy grid and pick the digit whose
 template is nearest in Hamming distance.
 */
module Heuristics {
  import opened Board
  import opened Grid
  import opened Templates

  /**
   The `forEach` over the dots that pushes each centre lying in the closed
   selection box onto `selectedDots`.
   */
  method SelectDots(corners: seq<Point>, sel: Rect) returns (selected: seq<Point>)
    ensures selected == Selected(corners, sel)
  {
    selected := [];
    for i := 0 to |corners|
      invariant selected == Selected(corners[..i], sel)
    {
      var dx := corners[i].x + DotOffset;
      var dy := corners[i].y + DotOffset;
      if dx >= sel.left && dx <= sel.left + sel.width && dy >= sel.top && dy <= sel.top + sel.height {
        selected := selected + [Point(dx, dy)];
      }
      assert corners[..i + 1][..i] == corners[..i];
    }
    assert corners[..|corners|] == corners;
  }

  /** `selectedDots.map(p => p.x)`. */
  function Xs(points: seq<Point>): (xs: seq<int>)
    ensures |xs| == |points| && forall i :: 0 <= i < |points| ==> xs[i] == points[i].x
  {
    seq(|points|, i requires 0 <= i < |points| => points[i].x)
  }

  /** `selectedDots.map(p => p.y)`. */
  function Ys(points: seq<Point>): (ys: seq<int>)
    ensures |ys| == |points| && forall i :: 0 <= i < |points| ==> ys[i] == points[i].y
  {
    seq(|points|, i requires 0 <= i < |points| => points[i].y)
  }

  /** `Math.min(...xs)`: the least of the values, and one of them. */
  function MinOf(xs: seq<int>): (m: int)
    requires xs != []
    ensures m in xs && forall x :: x in xs ==> m <= x
  {
    if |xs| == 1 then xs[0]
    else
      var rest := MinOf(xs[..|xs| - 1]);
      assert forall x :: x in xs ==> x in xs[..|xs| - 1] || x == xs[|xs| - 1];
      Min(rest, xs[|xs| - 1])
  }

  /** `Math.max(...xs)`: the greatest of the values, and one of them. */
  function MaxOf(xs: seq<int>): (m: int)
    requires xs != []
    ensures m in xs && forall x :: x in xs ==> x <= m
  {
    if |xs| == 1 then xs[0]
    else
      var rest := MaxOf(xs[..|xs| - 1]);
      assert forall x :: x in xs ==> x in xs[..|xs| - 1] || x == xs[|xs| - 1];
      Max(rest, xs[|xs| - 1])
  }

  /** The least and greatest coordinates on each axis belong to selected points and bound all others. */
  lemma ExtremesAttained(points: seq<Point>)
    requires points != []
    ensures forall p :: p in points ==> MinOf(Xs(points)) <= p.x <= MaxOf(Xs(points))
    ensures forall p :: p in points ==> MinOf(Ys(points)) <= p.y <= MaxOf(Ys(points))
    ensures exists p :: p in points && p.x == MinOf(Xs(points))
    ensures exists p :: p in points && p.x == MaxOf(Xs(points))
    ensures exists p :: p in points && p.y == MinOf(Ys(points))
    ensures exists p :: p in points && p.y == MaxOf(Ys(points))
  {
    var xs, ys := Xs(points), Ys(points);
    forall p | p in points
      ensures p.x in xs && p.y in ys
    {
      var k :| 0 <= k < |points| && points[k] == p;
      assert xs[k] == p.x && ys[k] == p.y;
    }
    var a :| 0 <= a < |xs| && xs[a] == MinOf(xs);
    var b :| 0 <= b < |xs| && xs[b] == MaxOf(xs);
    var c :| 0 <= c < |ys| && ys[c] == MinOf(ys);
    var d :| 0 <= d < |ys| && ys[d] == MaxOf(ys);
    assert points[a] in points && points[b] in points && points[c] in points && points[d] in points;
  }

  /**
   The rectangle the selected centres are normalised to: from the least to
   the greatest coordinate on each axis, but never narrower or lower than one
   pixel, so that it can be divided by.
   */
  function BoundingBox(points: seq<Point>): (r: Rect)
    requires points != []
    ensures Proper(r)
    ensures forall p :: p in points ==> Contains(r, p)
    ensures exists p :: p in points && p.x == r.left
    ensures exists p :: p in points && p.y == r.top
    ensures (exists p :: p in points && p.x != r.left) ==> exists p :: p in points && p.x == r.left + r.width
    ensures (exists p :: p in points && p.y != r.top) ==> exists p :: p in points && p.y == r.top + r.height
    ensures (forall p :: p in points ==> p.x == r.left) ==> r.width == 1
    ensures (forall p :: p in points ==> p.y == r.top) ==> r.height == 1
  {
    var xs, ys := Xs(points), Ys(points);
    var minX, maxX := MinOf(xs), MaxOf(xs);
    var minY, maxY := MinOf(ys), MaxOf(ys);
    ExtremesAttained(points);
    Rect(minX, minY, Max(1, maxX - minX), Max(1, maxY - minY))
  }

  /** Values bounded by `lo` and `hi`, both among them, have `lo` as least and `hi` as greatest. */
  lemma MinMaxOf(xs: seq<int>, lo: int, hi: int)
    requires lo in xs && hi in xs
    requires forall i :: 0 <= i < |xs| ==> lo <= xs[i] <= hi
    ensures MinOf(xs) == lo && MaxOf(xs) == hi
  {
    var a :| 0 <= a < |xs| && xs[a] == MinOf(xs);
    var b :| 0 <= b < |xs| && xs[b] == MaxOf(xs);
  }

  /** Coordinates bounded by attained extremes have those extremes as least and greatest. */
  lemma ExtremesOf(points: seq<Point>, minX: int, maxX: int, minY: int, maxY: int)
    requires forall p :: p in points ==> minX <= p.x <= maxX && minY <= p.y <= maxY
    requires exists p :: p in points && p.x == minX
    requires exists p :: p in points && p.x == maxX
    requires exists p :: p in points && p.y == minY
    requires exists p :: p in points && p.y == maxY
    ensures points != []
    ensures MinOf(Xs(points)) == minX && MaxOf(Xs(points)) == maxX
    ensures MinOf(Ys(points)) == minY && MaxOf(Ys(points)) == maxY
  {
    var xs, ys := Xs(points), Ys(points);
    forall i | 0 <= i < |points|
      ensures minX <= xs[i] <= maxX && minY <= ys[i] <= maxY
    {
      assert points[i] in points;
    }
    var a :| a in points && a.x == minX;
    var b :| b in points && b.x == maxX;
    var c :| c in points && c.y == minY;
    var d :| d in points && d.y == maxY;
    var ka :| 0 <= ka < |points| && points[ka] == a;
    var kb :| 0 <= kb < |points| && points[kb] == b;
    var kc :| 0 <= kc < |points| && points[kc] == c;
    var kd :| 0 <= kd < |points| && points[kd] == d;
    assert xs[ka] == minX && xs[kb] == maxX && ys[kc] == minY && ys[kd] == maxY;
    MinMaxOf(xs, minX, maxX);
    MinMaxOf(ys, minY, maxY);
  }

  /** The bounding box is fixed by the extreme coordinates of the points, whichever points attain them. */
  lemma BoundingBoxOfExtremes(points: seq<Point>, minX: int, maxX: int, minY: int, maxY: int)
    requires forall p :: p in points ==> minX <= p.x <= maxX && minY <= p.y <= maxY
    requires exists p :: p in points && p.x == minX
    requires exists p :: p in points && p.x == maxX
    requires exists p :: p in points && p.y == minY
    requires exists p :: p in points && p.y == maxY
    ensures BoundingBox(points) == Rect(minX, minY, Max(1, maxX - minX), Max(1, maxY - minY))
  {
    ExtremesOf(points, minX, maxX, minY, maxY);
  }

  /**
   The dot on the far right of the bounding box (or at its bottom) falls one
   cell past the last column (row) and is dropped, as soon as the dots do not
   all share that column (row).
   */
  lemma FarEdgeDropped(points: seq<Point>, p: Point, rows: nat, cols: nat)
    requires p in points
    ensures (forall q :: q in points ==> q.x <= p.x) && (exists q :: q in points && q.x != p.x) ==>
              ColOf(p, BoundingBox(points), cols) == cols && !Lands(p, BoundingBox(points), rows, cols)
    ensures (forall q :: q in points ==> q.y <= p.y) && (exists q :: q in points && q.y != p.y) ==>
              RowOf(p, BoundingBox(points), rows) == rows && !Lands(p, BoundingBox(points), rows, cols)
  {
    var box := BoundingBox(points);
    if (forall q :: q in points ==> q.x <= p.x) && (exists q :: q in points && q.x != p.x) {
      var q :| q in points && q.x != p.x;
      var r :| r in points && r.x == box.left + box.width;
      assert p.x == box.left + box.width;
    }
    if (forall q :: q in points ==> q.y <= p.y) && (exists q :: q in points && q.y != p.y) {
      var q :| q in points && q.y != p.y;
      var r :| r in points && r.y == box.top + box.height;
      assert p.y == box.top + box.height;
    }
  }

  /**
   `digit` is the first digit whose template is nearest to `grid`: no template
   is nearer, and every earlier template is strictly farther.
   */
  predicate IsFirstNearest(grid: seq<seq<int>>, digit: int)
    requires Shaped(grid, GridRows, GridCols)
  {
    && 0 <= digit < |DigitTemplates|
    && (forall i :: 0 <= i < |DigitTemplates| ==>
          Hamming(grid, DigitTemplates[digit]) <= Hamming(grid, DigitTemplates[i]))
    && (forall i :: 0 <= i < digit ==>
          Hamming(grid, DigitTemplates[digit]) < Hamming(grid, DigitTemplates[i]))
  }

  /** At most one digit is the first nearest one: ties go to the earliest template. */
  lemma FirstNearestUnique(grid: seq<seq<int>>, d: int, e: int)
    requires Shaped(grid, GridRows, GridCols)
    requires IsFirstNearest(grid, d) && IsFirstNearest(grid, e)
    ensures d == e
  {
    var hd, he := Hamming(grid, DigitTemplates[d]), Hamming(grid, DigitTemplates[e]);
    assert hd <= he && he <= hd;
  }

  /** The best distance seen so far; `Infinity` before the first template. */
  datatype Bound = Infinity | Finite(value: nat)

  predicate Below(dist: nat, bound: Bound)
  {
    bound.Infinity? || dist < bound.value
  }

  /**
   The scan over `DIGIT_TEMPLATES` that keeps the template with the least
   distance, replacing it only on a strictly smaller one.
   */
  method Classify(grid: seq<seq<int>>) returns (digit: nat)
    requires Shaped(grid, GridRows, GridCols)
    ensures IsFirstNearest(grid, digit)
  {
    digit := 0;
    var minDist := Infinity;
    for i := 0 to |DigitTemplates|
      invariant i == 0 ==> minDist == Infinity && digit == 0
      invariant i > 0 ==> digit < i && minDist == Finite(Hamming(grid, DigitTemplates[digit]))
      invariant forall k :: 0 <= k < i ==> Hamming(grid, DigitTemplates[digit]) <= Hamming(grid, DigitTemplates[k])
      invariant forall k :: 0 <= k < digit ==> Hamming(grid, DigitTemplates[digit]) < Hamming(grid, DigitTemplates[k])
    {
      var dist := GridDistance(grid, DigitTemplates[i]);
      if Below(dist, minDist) {
        minDist := Finite(dist);
        digit := i;
      }
    }
  }

  /** A grid equal to a digit's template is recognised as that digit. */
  lemma TemplateRecognised(d: nat)
    requires d < |DigitTemplates|
    ensures IsFirstNearest(DigitTemplates[d], d)
  {
    var t := DigitTemplates[d];
    HammingZero(t, t);
    forall i | 0 <= i < d
      ensures Hamming(t, t) < Hamming(t, DigitTemplates[i])
    {
      TemplatesDistinct(d, i);
      HammingZero(t, DigitTemplates[i]);
    }
  }

  /**
   What releasing the selection box computes: 0 when fewer than two dot
   centres lie in the box, otherwise the first nearest digit to the grid of
   the selected centres within their bounding box.
   */
  method Recognise(corners: seq<Point>, sel: Rect) returns (digit: nat)
    ensures digit < 10
    ensures var selected := Selected(corners, sel);
            |selected| < 2 ==> digit == 0
    ensures var selected := Selected(corners, sel);
            |selected| >= 2 ==>
              IsFirstNearest(Occupancy(selected, BoundingBox(selected), GridRows, GridCols), digit)
  {
    var selectedDots := SelectDots(corners, sel);
    digit := 0;
    if |selectedDots| >= 2 {
      var box := BoundingBox(selectedDots);
      var grid := PointsToGrid(selectedDots, box, GridRows, GridCols);
      digit := Classify(grid);
    }
  }
}
