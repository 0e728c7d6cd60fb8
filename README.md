# Weird Volume Control: the digit recognisers, in Dafny

The app sets an audio volume from a digit 0–9 that the user "draws" with
draggable dots. The user Shift-drags a selection box over the board. On
release, one of two recognisers turns the dots inside the box into a digit:

- **Count and clamp** (`scripts/dragvolumecontrol.js`): the digit is the
  number of dot centres in the box, capped at 9.
- **Template matching** (`scripts/dragvolumecontrolwithheuristics.js`): the
  centres of the selected dots are normalised to their bounding box. They
  are then scaled into a 5 x 3 occupancy grid. The digit is the first of ten
  fixed templates at the least Hamming distance from that grid. Fewer than
  two selected dots give 0.

This project models both recognisers, plus the board arithmetic they share:
the selection rectangle spanned by two pointer positions, the clamp that
keeps a dragged dot on the board, and the dot-centre offset.

Modules, one per component:

- `Board` (`board.dfy`): points, rectangles, the selection rectangle, the
  closed in-box test, the drag clamp, and the list of selected centres
  (`Selected`). Both source files share this arithmetic.
- `Grid` (`grid.dfy`): `pointsToGrid` and `gridDistance`. Each is an
  imperative method with loop invariants, proved against a reference
  definition: `Occupancy` (a cell is 1 exactly when some point falls in it)
  and `Hamming`. The metric properties are proved about the reference.
- `Templates` (`templates.dfy`): the constant `DIGIT_TEMPLATES`, typed as 5 x 3
  grids of 0/1 cells.
- `Heuristics` (`heuristics.dfy`): selecting the dots, the bounding box, the
  arg-min scan over the templates, and the release handler `Recognise`.
- `Counting` (`counting.dfy`): the counting loop, the clamp to 0..9 and the
  handler `CountRecognise`.
- `Findings` (`findings.dfy`): the far-edge defect described under
  "## Findings", and its correction.

Modelling choices:

- Coordinates are integers, as `parseInt` leaves them. The scaled cell index
  `Math.floor((v - origin) / extent * n)` becomes the exact integer quotient
  `((v - origin) * n) / extent`. Dafny's `/` rounds down for a positive
  divisor, and the extent is at least 1.
- The source's grids are arrays of arrays that are local to one call and
  never shared. The model writes them as `seq<seq<int>>` values, and
  `grid[gy][gx] = 1` becomes a sequence update.
- `minDist = Infinity` becomes the datatype `Bound = Infinity | Finite(n)`.
- Five dots on x = 1 in a 3-pixel-wide, 5-pixel-high box land in column 1,
  rows 1 to 4, and the dot at y = 5 falls on the bottom edge and is dropped
  (`Grid.VerticalLineExample`).

## Model

| member | source | states |
|---|---|---|
| `Board.SelectionRect` | scripts/dragvolumecontrolwithheuristics.js:85-88 | the selection box has non-negative extents and runs exactly from one drag corner to the other on each axis, so its far edge is the larger coordinate |
| `Board.SelectionRectSymmetric` | scripts/dragvolumecontrol.js:83-86 | swapping the drag start and the current point gives the same box |
| `Board.SelectionContains` | scripts/dragvolumecontrolwithheuristics.js:100-110 | a point is in the closed box `[x1,x2] x [y1,y2]` exactly when it lies between the two drag corners on both axes |
| `Board.DragClamp` | scripts/dragvolumecontrol.js:50-51 | the clamped position lies in `[0, W - w]` when the element fits on the board, is 0 when it does not fit, is unchanged when already in range, and goes to the nearer end when out of range |
| `Board.DragClampIdempotent` | scripts/dragvolumecontrolwithheuristics.js:52-53 | clamping an already clamped position changes nothing |
| `Board.Selected` | scripts/dragvolumecontrolwithheuristics.js:106-113 | the selected centres are never more than the dots |
| `Board.SelectedMembers` | scripts/dragvolumecontrolwithheuristics.js:106-113 | a point is among the selected centres exactly when it is the centre of some dot and lies in the closed box |
| `Board.SelectedConcat` | scripts/dragvolumecontrolwithheuristics.js:106-113 | selecting from two runs of dots gives the selection from the first followed by the selection from the second, so each dot contributes at its own place in board order |
| `Board.SelectedSingle` | scripts/dragvolumecontrolwithheuristics.js:107-111 | one dot contributes its centre when that lies in the box, and nothing otherwise |
| `Board.SelectedAll` | scripts/dragvolumecontrolwithheuristics.js:106-113 | when every dot lies in the box, every centre is selected, in board order |
| `Board.SelectedCount` | scripts/dragvolumecontrol.js:104-108 | there are exactly as many selected centres as dots in the box, two dots on one spot counting twice |
| `Board.SelectedMonotone` | scripts/dragvolumecontrol.js:104-110 | a box that contains another selects at least as many dots |
| `Board.VolumePercent` | scripts/dragvolumecontrol.js:114-116 | the displayed volume `digit * 10` is a multiple of 10 in 0..90 and determines the digit |
| `Grid.ZeroGrid` | scripts/dragvolumecontrolwithheuristics.js:229 | the fresh grid has `gridRows` rows of `gridCols` zeros |
| `Grid.CellIndex` | scripts/dragvolumecontrolwithheuristics.js:231-232 | the scaled index is non-negative exactly when the coordinate is at or after the origin, below `n` exactly when the coordinate is before the far edge, and equals `n` on the far edge |
| `Grid.Occupancy` | scripts/dragvolumecontrolwithheuristics.js:228-237 | the reference grid has `rows` rows of `cols` cells, each 0 or 1 |
| `Grid.OccupiedAppend` | scripts/dragvolumecontrolwithheuristics.js:230-235 | after one more point, a cell is occupied exactly when it was before or the new point falls in it |
| `Grid.OccupancyAppend` | scripts/dragvolumecontrolwithheuristics.js:230-236 | one more point sets its own cell to 1 if it lands inside the grid and leaves the grid unchanged otherwise |
| `Grid.OccupancyEmpty` | scripts/dragvolumecontrolwithheuristics.js:229-237 | no points give the all-zero grid |
| `Grid.PointsToGrid` | scripts/dragvolumecontrolwithheuristics.js:228-238 | the grid built point by point is the reference grid: a cell is 1 exactly when some point's floor-scaled `(gy, gx)` is that cell, and points outside the grid are dropped |
| `Grid.OccupancyOrderFree` | scripts/dragvolumecontrolwithheuristics.js:230-235 | two point lists with the same members give the same grid, whatever their order or repetitions |
| `Grid.OccupancyAbsorbs` | scripts/dragvolumecontrolwithheuristics.js:233-235 | a point whose cell is already marked, or that falls outside the grid, leaves the grid unchanged |
| `Grid.SinglePoint` | scripts/dragvolumecontrolwithheuristics.js:231-234 | one point strictly inside the rectangle marks exactly its own cell and no other |
| `Grid.VerticalLineExample` | scripts/dragvolumecontrolwithheuristics.js:228-238 | dots on x = 1 of a 3 x 5 box fill rows 1–4 of the middle column; the dot on the bottom edge is dropped |
| `Grid.GridDistance` | scripts/dragvolumecontrolwithheuristics.js:241-248 | the nested loops count exactly the Hamming distance between the two grids |
| `Grid.HammingSymmetric` | scripts/dragvolumecontrolwithheuristics.js:241-248 | the distance does not depend on the order of the grids |
| `Grid.HammingZero` | scripts/dragvolumecontrolwithheuristics.js:241-248 | the distance is 0 exactly when the grids are identical |
| `Grid.HammingBound` | scripts/dragvolumecontrolwithheuristics.js:241-248 | two rows x cols grids differ in at most rows * cols cells |
| `Grid.HammingTriangle` | scripts/dragvolumecontrolwithheuristics.js:241-248 | the distance obeys the triangle inequality |
| `Templates.TemplatesDistinct` | scripts/dragvolumecontrolwithheuristics.js:153-224 | no two digits share a template |
| `Heuristics.SelectDots` | scripts/dragvolumecontrolwithheuristics.js:106-113 | the loop pushes exactly the selected centres, in board order |
| `Heuristics.MinOf` | scripts/dragvolumecontrolwithheuristics.js:120 | `Math.min` over the coordinates is one of them and no greater than any |
| `Heuristics.MaxOf` | scripts/dragvolumecontrolwithheuristics.js:121 | `Math.max` over the coordinates is one of them and no smaller than any |
| `Heuristics.BoundingBox` | scripts/dragvolumecontrolwithheuristics.js:120-126 | the box has width and height at least 1, contains every selected centre, touches a centre on its left and top edges, and touches one on its right (bottom) edge unless all centres share one column (row), in which case it is one pixel wide (high) |
| `Heuristics.BoundingBoxOfExtremes` | scripts/dragvolumecontrolwithheuristics.js:120-126 | the box is determined by the least and greatest coordinates, whichever points attain them |
| `Heuristics.FarEdgeDropped` | scripts/dragvolumecontrolwithheuristics.js:120-126 | a right-most (bottom-most) centre gets column `gridCols` (row `gridRows`) and marks no cell, unless all centres share its column (row) |
| `Heuristics.FirstNearestUnique` | scripts/dragvolumecontrolwithheuristics.js:129-136 | at most one digit is the first nearest: ties go to the earliest template |
| `Heuristics.Classify` | scripts/dragvolumecontrolwithheuristics.js:129-136 | the scan returns a digit in 0..9 whose template is at the least distance, and every earlier template is strictly farther (the strict `<` keeps the first minimum) |
| `Heuristics.TemplateRecognised` | scripts/dragvolumecontrolwithheuristics.js:129-136 | a grid equal to a digit's template is recognised as that digit |
| `Heuristics.Recognise` | scripts/dragvolumecontrolwithheuristics.js:105-137 | the recognised digit is in 0..9; it is 0 when fewer than two centres are selected; otherwise it is the first nearest digit to the grid of the selected centres in their bounding box |
| `Counting.CountDots` | scripts/dragvolumecontrol.js:103-110 | the count is the number of dots whose centre lies in the closed box (each dot once, whatever its position), equals the length of the selected list, and is at most the number of dots |
| `Counting.ClampDigit` | scripts/dragvolumecontrol.js:112 | the digit is in 0..9; it equals the count for counts 0..9, is 9 above and 0 below |
| `Counting.LowerClampRedundant` | scripts/dragvolumecontrol.js:112 | for a count of selected dots, `Math.max(0, …)` changes nothing: the digit is `min(9, count)` |
| `Counting.ClampDigitMonotone` | scripts/dragvolumecontrol.js:112 | a larger count never gives a smaller digit |
| `Counting.CountRecognise` | scripts/dragvolumecontrol.js:99-112 | the digit is in 0..9, equals the number of selected dots when that is at most 9, and is 9 otherwise |
| `Counting.RecogniseMonotone` | scripts/dragvolumecontrol.js:103-112 | a box that contains another never gives a smaller digit |
| `Findings.ThreeLayoutReadAsSeven` | scripts/dragvolumecontrolwithheuristics.js:120-136 | eleven dots laid out exactly as the template of 3 give a grid without its right column and bottom row, and that grid is recognised as 7 |
| `Findings.InclusiveBox` | scripts/dragvolumecontrolwithheuristics.js:120-126 | the whole-pixel box has extents at least 1 and every selected centre lies strictly before its far edges |
| `Findings.InclusiveBoxKeepsEveryDot` | scripts/dragvolumecontrolwithheuristics.js:124-126 | with the whole-pixel box, every selected centre lands in the grid and its cell is 1 |
| `Findings.ThreeLayoutReadAsThree` | scripts/dragvolumecontrolwithheuristics.js:120-136 | with the whole-pixel box, the same eleven dots give exactly the template of 3 and are recognised as 3 |
| `Findings.RecogniseCorrected` | scripts/dragvolumecontrolwithheuristics.js:105-137 | the release handler with the whole-pixel box: digit in 0..9, 0 for fewer than two selected centres, otherwise the first nearest digit to the corrected grid |
| `Findings.ThreeBoardSelects` | scripts/dragvolumecontrolwithheuristics.js:106-113 | a box over a board whose dots form a 3 selects the eleven centres of the layout, in board order |
| `Findings.RecogniseThreeBoard` | scripts/dragvolumecontrolwithheuristics.js:105-137 | as written, releasing that box sets the digit 7 |
| `Findings.RecogniseCorrectedThreeBoard` | scripts/dragvolumecontrolwithheuristics.js:105-137 | with the whole-pixel box, releasing it sets the digit 3 |

## Left out

- DOM wiring: listeners, element creation and removal, `style` writes,
  `getBoundingClientRect` and cursor changes. Their values enter the model as
  integer parameters: dot corners, the selection box, board and element sizes.
- The random initial placement of the 20 dots (`Math.random()`). The
  recognisers take any list of dots.
- `parseInt` of `"…px"` strings. Browser positions can be fractional, and
  `parseInt` truncates them; the model starts from the integers it yields.
- Floating point. The cell index is computed exactly over the integers, which
  idealises the IEEE-754 division and multiplication in the source. The drag
  clamp is modelled on integer pixels.
- `audio.volume = digit * 0.1` (floating point, media API) and the display
  text. Only the integer percentage `digit * 10` is modelled.
- Event ordering, the `selecting` / `selectorBox` flags and the drag offset
  bookkeeping of `makeDraggable`. These are UI state, not recogniser logic.
- Grid writes in place: the grid is modelled as a sequence value that is
  reassigned. The source's grid is local to `pointsToGrid` and never shared,
  so no aliasing is lost.
- `gridDistance` on grids of different shapes. The source reads `undefined`
  cells there, or throws when `b` has fewer rows than `a`; the model requires
  both grids to have one shape, as its only call, with two 5 x 3 grids, does.

## Findings

| source | as written | input that shows it | evidently intended | confidence | as-written member | corrected member |
|---|---|---|---|---|---|---|
| scripts/dragvolumecontrolwithheuristics.js:120-126 | the box spans `maxX - minX` (`maxY - minY`) pixels, so a right-most (bottom-most) centre scales to index `gridCols` (`gridRows`) and is dropped at line 233 | eleven dots whose centres lie at x in {10, 20, 30} and y in {10, …, 50}, laid out as the template of 3: the grid loses its right column and bottom row, and the digit is 7 | every selected dot marks a cell of the grid (a box one pixel wider and one pixel higher than the bounding box), so dots laid out as a template are read as that digit | high; not executed | `Findings.ThreeLayoutReadAsSeven` | `Findings.InclusiveBoxKeepsEveryDot` |

`Heuristics.Recognise` keeps the box as written, so that it states what the
code does. `Findings.RecogniseCorrected` is the same handler with the
corrected box; `Findings.ThreeLayoutReadAsThree` shows it reads the same
layout as 3. `Findings.RecogniseThreeBoard` and
`Findings.RecogniseCorrectedThreeBoard` call the two handlers on a board
whose dots form a 3: the first returns 7 and the second 3.
