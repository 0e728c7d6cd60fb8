/**
 The board arithmetic shared by both volume controls: points and rectangles in
 board pixels, the selection rectangle drawn between two pointer positions, the
 clamp that keeps a dragged dot on the board, and the dots whose centres fall
 inside a selection.  Every position is an integer, as `parseInt` leaves it.
 */
module Board {

  datatype Point = Point(x: int, y: int)

  /** A rectangle as the selection box stores it: its origin and its extent. */
  datatype Rect = Rect(left: int, top: int, width: int, height: int)

  function Min(a: int, b: int): int { if a <= b then a else b }

  function Max(a: int, b: int): int { if a <= b then b else a }

  function Abs(a: int): int { if a < 0 then -a else a }

  /** How far right of and below a dot's corner the recognisers take its centre to be. */
  const DotOffset := 10

  /** The centre of the dot whose corner is `corner`. */
  function Centre(corner: Point): Point
  {
    Point(corner.x + DotOffset, corner.y + DotOffset)
  }

  /**
   The selection box between the drag start and the current pointer: the
   smallest rectangle that has both points on its edges, whichever way the
   pointer was dragged.
   */
  function SelectionRect(start: Point, curr: Point): (r: Rect)
    ensures r.width >= 0 && r.height >= 0
    ensures r.left <= start.x <= r.left + r.width && r.left <= curr.x <= r.left + r.width
    ensures r.top <= start.y <= r.top + r.height && r.top <= curr.y <= r.top + r.height
    ensures (r.left == start.x && r.left + r.width == curr.x) || (r.left == curr.x && r.left + r.width == start.x)
    ensures (r.top == start.y && r.top + r.height == curr.y) || (r.top == curr.y && r.top + r.height == start.y)
  {
    Rect(Min(start.x, curr.x), Min(start.y, curr.y), Abs(curr.x - start.x), Abs(curr.y - start.y))
  }

  /** Swapping the two corners of a drag draws the same selection box. */
  lemma SelectionRectSymmetric(a: Point, b: Point)
    ensures SelectionRect(a, b) == SelectionRect(b, a)
  {
  }

  /** The closed rectangle `[x1, x2] x [y1, y2]` with `x2 = x1 + width`, `y2 = y1 + height`. */
  predicate Contains(r: Rect, p: Point)
  {
    r.left <= p.x <= r.left + r.width && r.top <= p.y <= r.top + r.height
  }

  /** A point lies in the selection box exactly when it lies between the two drag corners on both axes. */
  lemma SelectionContains(start: Point, curr: Point, p: Point)
    ensures Contains(SelectionRect(start, curr), p) <==>
            Min(start.x, curr.x) <= p.x <= Max(start.x, curr.x) &&
            Min(start.y, curr.y) <= p.y <= Max(start.y, curr.y)
  {
  }

  /** Every point of `inner` is a point of `outer`. */
  predicate Within(inner: Rect, outer: Rect)
  {
    outer.left <= inner.left && inner.left + inner.width <= outer.left + outer.width &&
    outer.top <= inner.top && inner.top + inner.height <= outer.top + outer.height
  }

  /**
   Where a dragged element of size `size` may go on a board of extent `extent`:
   `max(0, min(extent - size, pos))`.
   */
  function DragClamp(pos: int, extent: int, size: int): (r: int)
    ensures size <= extent ==> 0 <= r <= extent - size
    ensures extent < size ==> r == 0
    ensures 0 <= pos <= extent - size ==> r == pos
    ensures size <= extent && pos < 0 ==> r == 0
    ensures size <= extent && pos > extent - size ==> r == extent - size
  {
    Max(0, Min(extent - size, pos))
  }

  /** Clamping a position that was already clamped leaves it where it is. */
  lemma DragClampIdempotent(pos: int, extent: int, size: int)
    ensures DragClamp(DragClamp(pos, extent, size), extent, size) == DragClamp(pos, extent, size)
  {
  }

  /**
   The centres of the dots whose centre lies in the selection box, in board
   order (the `selectedDots` list).  Its length is the count the simple
   control turns into a digit.
   */
  function Selected(corners: seq<Point>, sel: Rect): (r: seq<Point>)
    ensures |r| <= |corners|
  {
    if corners == [] then []
    else
      var last := corners[|corners| - 1];
      var prior := Selected(corners[..|corners| - 1], sel);
      if Contains(sel, Centre(last)) then prior + [Centre(last)] else prior
  }

  /** A point is selected exactly when it lies in the box and is the centre of some dot. */
  lemma {:induction false} SelectedMembers(corners: seq<Point>, sel: Rect)
    ensures forall p :: p in Selected(corners, sel) <==> Contains(sel, p) && exists c :: c in corners && Centre(c) == p
  {
    if corners != [] {
      var last := corners[|corners| - 1];
      SelectedMembers(corners[..|corners| - 1], sel);
      assert forall c :: c in corners <==> c in corners[..|corners| - 1] || c == last;
    }
  }

  /**
   Selecting is a filter: the dots of `a + b` select what `a` selects followed
   by what `b` selects.  With `SelectedSingle`, every dot in the box
   contributes exactly one entry, at its own place in board order.
   */
  lemma {:induction false} SelectedConcat(a: seq<Point>, b: seq<Point>, sel: Rect)
    ensures Selected(a + b, sel) == Selected(a, sel) + Selected(b, sel)
  {
    if b == [] {
      assert a + b == a;
    } else {
      var front := b[..|b| - 1];
      assert (a + b)[..|a + b| - 1] == a + front;
      assert (a + b)[|a + b| - 1] == b[|b| - 1];
      SelectedConcat(a, front, sel);
    }
  }

  /** One dot selects its centre when that lies in the box, and nothing otherwise. */
  lemma SelectedSingle(c: Point, sel: Rect)
    ensures Selected([c], sel) == if Contains(sel, Centre(c)) then [Centre(c)] else []
  {
    assert [c][..0] == [];
  }

  /** When every dot lies in the box, each one is selected, in board order. */
  lemma {:induction false} SelectedAll(corners: seq<Point>, sel: Rect)
    requires forall i :: 0 <= i < |corners| ==> Contains(sel, Centre(corners[i]))
    ensures |Selected(corners, sel)| == |corners|
    ensures forall i :: 0 <= i < |corners| ==> Selected(corners, sel)[i] == Centre(corners[i])
  {
    if corners != [] {
      var n := |corners| - 1;
      var front := corners[..n];
      forall i | 0 <= i < n
        ensures Contains(sel, Centre(front[i]))
      {
        assert front[i] == corners[i];
      }
      SelectedAll(front, sel);
      var r := Selected(corners, sel);
      assert r == Selected(front, sel) + [Centre(corners[n])];
      forall i | 0 <= i < n
        ensures r[i] == Centre(corners[i])
      {
        assert front[i] == corners[i];
      }
    }
  }

  /** The positions, in board order, of the dots whose centre lies in the box. */
  function InBox(corners: seq<Point>, sel: Rect): set<int>
  {
    set i | 0 <= i < |corners| && Contains(sel, Centre(corners[i]))
  }

  /** There are as many selected centres as dots in the box, two dots on one spot counting twice. */
  lemma {:induction false} SelectedCount(corners: seq<Point>, sel: Rect)
    ensures |Selected(corners, sel)| == |InBox(corners, sel)|
  {
    if corners != [] {
      var n := |corners| - 1;
      var front := corners[..n];
      SelectedCount(front, sel);
      var all, prior := InBox(corners, sel), InBox(front, sel);
      forall i | i in prior
        ensures i in all && i != n
      {
        assert front[i] == corners[i];
      }
      forall i | i in all && i != n
        ensures i in prior
      {
        assert front[i] == corners[i];
      }
      if Contains(sel, Centre(corners[n])) {
        assert all == prior + {n};
      } else {
        assert all == prior;
      }
    }
  }

  /** A larger selection box selects at least as many dots. */
  lemma {:induction false} SelectedMonotone(corners: seq<Point>, inner: Rect, outer: Rect)
    requires Within(inner, outer)
    ensures |Selected(corners, inner)| <= |Selected(corners, outer)|
  {
    if corners != [] {
      SelectedMonotone(corners[..|corners| - 1], inner, outer);
    }
  }

  /** The volume shown for a digit, in percent. */
  function VolumePercent(digit: int): (percent: int)
    requires 0 <= digit <= 9
    ensures 0 <= percent <= 90 && percent % 10 == 0
    ensures percent / 10 == digit
  {
    digit * 10
  }
}
