/**
 The recogniser of the simple control: the digit is the number of dot
 centres in the released selection box, clamped to 0..9.
 */
module Counting {
  import opened Board

  /**
   The `forEach` over the dots that increments `count` for every centre lying
   in the closed selection box.
   */
  method CountDots(corners: seq<Point>, sel: Rect) returns (count: nat)
    ensures count == |Selected(corners, sel)|
    ensures count == |InBox(corners, sel)|
    ensures count <= |corners|
  {
    count := 0;
    for i := 0 to |corners|
      invariant count == |Selected(corners[..i], sel)|
    {
      var dx := corners[i].x + DotOffset;
      var dy := corners[i].y + DotOffset;
      if dx >= sel.left && dx <= sel.left + sel.width && dy >= sel.top && dy <= sel.top + sel.height {
        count := count + 1;
      }
      assert corners[..i + 1][..i] == corners[..i];
    }
    assert corners[..|corners|] == corners;
    SelectedCount(corners, sel);
  }

  /** `Math.max(0, Math.min(9, count))`: the digit a count stands for. */
  function ClampDigit(count: int): (digit: int)
    ensures 0 <= digit <= 9
    ensures 0 <= count <= 9 ==> digit == count
    ensures count > 9 ==> digit == 9
    ensures count < 0 ==> digit == 0
  {
    Max(0, Min(9, count))
  }

  /** A count is never negative, so the outer `Math.max(0, ...)` never changes the digit. */
  lemma LowerClampRedundant(corners: seq<Point>, sel: Rect)
    ensures ClampDigit(|Selected(corners, sel)|) == Min(9, |Selected(corners, sel)|)
  {
  }

  /** A larger count never gives a smaller digit. */
  lemma ClampDigitMonotone(a: int, b: int)
    requires a <= b
    ensures ClampDigit(a) <= ClampDigit(b)
  {
  }

  /**
   What releasing the selection box computes: the number of dot centres in
   the box, or 9 when there are more than nine.
   */
  method CountRecognise(corners: seq<Point>, sel: Rect) returns (digit: int)
    ensures 0 <= digit <= 9
    ensures var count := |Selected(corners, sel)|;
            digit == (if count <= 9 then count else 9)
  {
    var count := CountDots(corners, sel);
    digit := ClampDigit(count);
  }

  /** Enlarging the selection box never lowers the recognised digit. */
  lemma RecogniseMonotone(corners: seq<Point>, inner: Rect, outer: Rect)
    requires Within(inner, outer)
    ensures ClampDigit(|Selected(corners, inner)|) <= ClampDigit(|Selected(corners, outer)|)
  {
    SelectedMonotone(corners, inner, outer);
    ClampDigitMonotone(|Selected(corners, inner)|, |Selected(corners, outer)|);
  }
}
