# ibuki rendering core in Dafny

A model of the drawing core of ibuki, a small software rasteriser that draws
into the pixel buffer of a window surface. The model covers:

- Cohen–Sutherland clipping of a line against a rectangle (`Clipping`);
- the incremental line rasteriser (`LineRaster`);
- the edge-table scan-line polygon fill (`ScanFill`);
- the 2D vector type (`Vectors`);
- the raw canvas: colour packing, the bottom-up pixel layout, `put_pixel` and
  `clean_color` (`Canvas`);
- the `Draw` trait as a closed set of shapes, and the effect of their pixel
  writes on a canvas (`Shapes`);
- the points and lines these share (`Geometry`) and an `Option` type
  (`Wrappers`).

Floating-point coordinates are exact reals. The integer coordinates the
rasterisers work on are `nat` (the source's `u32`) or `int` (its `i32`).
Colours and pixel words are `bv8` and `bv32`. The raw pixel pointer becomes a
sequence of `width * height` words. A drawing operation returns the sequence
of `put_pixel` calls it makes, and `Shapes.Apply` performs them on a canvas.

Three facts about the code shape the model:

- `EdgeTable::from_points` puts every polygon side into the edge table,
  horizontal ones included. A horizontal side, like a vertical one, gets a
  zero inverse-slope denominator, and its x never moves.
- A sloped line does not write its last endpoint. For example, (0,0)–(4,4)
  writes 4 pixels, not 5. Horizontal and vertical lines do include both ends.
- The only clipping algorithm in src/clipping.rs is Cohen–Sutherland.

## Model

| member | source | states |
|---|---|---|
| Geometry.PointAtOnLine | src/line.rs:6-19 | every point of the parametrised segment lies on the line through its two endpoints |
| Geometry.PointAtEnds | src/line.rs:6-19 | the parametrisation is the first endpoint at 0 and the last at 1 |
| Clipping.OutCode | src/clipping.rs:17-35 | the code is zero exactly when the point is inside; TOP and BOTTOM are never both set, nor RIGHT and LEFT; only the low four bits are used; on a valid rectangle each bit is set exactly when the point is strictly beyond that side |
| Clipping.Chosen | src/clipping.rs:53-65 | the boundary the branch chain picks is a bit of the code, in the order TOP, BOTTOM, RIGHT, LEFT: a later one is picked only if the earlier bits are clear |
| Clipping.ChosenIsSet | src/clipping.rs:50-53 | for a non-zero code the picked boundary's bit is set in it |
| Clipping.ExcessAlong | src/clipping.rs:54-63 | how far a point is beyond a side changes linearly along the line |
| Clipping.AxisCrossing | src/clipping.rs:54-63 | the source's formula lands exactly on the boundary coordinate and equals the point at the boundary parameter |
| Clipping.HorizontalCrossing | src/clipping.rs:54-58 | the TOP/BOTTOM formula is the point of the line at the parameter where y reaches the boundary |
| Clipping.VerticalCrossing | src/clipping.rs:60-64 | the RIGHT/LEFT formula is the point of the line at the parameter where x reaches the boundary |
| Clipping.TopCrossing | src/clipping.rs:53-55 | the TOP branch computes the line's point on y = y_max |
| Clipping.BottomCrossing | src/clipping.rs:56-58 | the BOTTOM branch computes the line's point on y = y_min |
| Clipping.RightCrossing | src/clipping.rs:59-61 | the RIGHT branch computes the line's point on x = x_max |
| Clipping.LeftCrossing | src/clipping.rs:62-64 | the LEFT branch computes the line's point on x = x_min |
| Clipping.BoundaryPointAt | src/clipping.rs:53-65 | whichever boundary is picked, the computed point is on the original line at that boundary's parameter, and the division is not by zero |
| Clipping.Intersection | src/clipping.rs:50-65 | the intersection for the active code lies on the line and on the picked boundary |
| Clipping.ChosenDivisorNonZero | src/clipping.rs:50-65 | while the codes are non-zero and share no bit, the branch taken never divides by a zero delta |
| Clipping.ClipStep | src/clipping.rs:50-73 | one pass moves only the endpoint whose code is acted on (the first one if it is outside); it moves to the picked boundary on the original line; the acted-on bit becomes clear; codes stay those of the endpoints |
| Clipping.InsideNoExcess | src/clipping.rs:22-35 | a point is inside exactly when it is beyond none of the four sides |
| Clipping.CodeBit | src/clipping.rs:22-35 | on a valid rectangle a code bit is set exactly when the point is beyond that side |
| Clipping.FewerBits | src/clipping.rs:67-73 | a code that drops the acted-on bit and gains no other has fewer set bits |
| Clipping.CodesShrink | src/clipping.rs:67-73 | the new endpoint's code has the picked bit clear and no bit that neither old endpoint had |
| Clipping.StepAdvances | src/clipping.rs:43-74 | one pass keeps the endpoints on the original line as the points at two parameters, keeps everything cut off invisible, and strictly lowers the number of set bits in the two codes, so the loop ends |
| Clipping.FallingCrossing | src/clipping.rs:53-65 | cutting from the outside first endpoint, the boundary parameter lies strictly after it and not after the other |
| Clipping.RisingCrossing | src/clipping.rs:53-65 | cutting from the outside last endpoint, the boundary parameter lies not before the first and strictly before it |
| Clipping.CutFromFirst | src/clipping.rs:67-69 | replacing the first endpoint discards only points that are not inside the rectangle |
| Clipping.CutFromLast | src/clipping.rs:70-72 | replacing the last endpoint discards only points that are not inside the rectangle |
| Clipping.InvisibleBefore | src/clipping.rs:53-65 | every point of the line before a falling boundary crossing is outside |
| Clipping.InvisibleAfter | src/clipping.rs:53-65 | every point of the line after a rising boundary crossing is outside |
| Clipping.CutInvisible | src/clipping.rs:53-65 | a point on the far side of the crossing is outside |
| Clipping.BeyondBetween | src/clipping.rs:46-48 | a point between two others is beyond a side only if one of them is, and is beyond it if both are |
| Clipping.ExcessBetween | src/clipping.rs:46-48 | the excess over a side at a middle parameter lies between the excesses at the ends |
| Clipping.RejectedInvisible | src/clipping.rs:46-48 | when the two codes share a bit, no point of the original segment is inside: rejecting is sound |
| Clipping.AcceptedVisible | src/clipping.rs:44-45 | when both codes are zero, the tracked endpoints bound exactly the part of the segment inside the rectangle |
| Clipping.EmptyRectangleOutside | src/clipping.rs:17-35 | on a rectangle with x_min > x_max every code has RIGHT or LEFT set, and with y_min > y_max TOP or BOTTOM, so no code is zero |
| Clipping.EmptyRectangleStep | src/clipping.rs:43-74 | on such a rectangle a pass always moves the first endpoint, along the line, keeps the last, and either makes the two codes share a bit or clears a bit of the first code: the loop still ends |
| Clipping.ClipAdvances | src/clipping.rs:43-74 | one pass of the loop keeps the loop invariant and strictly lowers the termination measure, on valid and empty rectangles |
| Clipping.ClipOutcome | src/clipping.rs:43-77 | when the loop stops, accepting returns exactly the visible part, rejecting means no point is inside, and an empty rectangle always ends in a rejection |
| Clipping.CohenSutherlandLineClip | src/clipping.rs:37-77 | a segment wholly inside comes back unchanged; codes sharing a bit give None; a returned segment has both ends inside and is exactly the visible part of the input; None means no point of the input is inside; a rectangle with x_min > x_max or y_min > y_max always gives None |
| Vectors.FromPointsRoundTrip | src/vector2d.rs:17-45 | `get_from` and `get_to` recover the two points `from_2d_points` was given, and rebuilding from them gives back the vector |
| Vectors.DotSymmetric | src/vector2d.rs:25-27 | the dot product is symmetric |
| Vectors.DotTranslate | src/vector2d.rs:25-27 | the dot product depends only on the differences: moving a vector leaves it unchanged |
| Vectors.DotSelf | src/vector2d.rs:21-27 | a vector dotted with itself is its squared length |
| Vectors.Div | src/vector2d.rs:48-54 | each coordinate of the quotient times the divisor gives back the original coordinate |
| Vectors.MulAsWrittenByOne | src/vector2d.rs:56-70 | the source's multiplication by 1 returns the vector exactly when y0 equals x0; it fails for (0,1)→(0,0) |
| Vectors.ScaleUndoesDiv | src/vector2d.rs:48-70 | multiplying by a non-zero number undoes dividing by it |
| Vectors.ScaleLaws | src/vector2d.rs:56-70 | multiplying by 1 is the identity, and multiplying twice is multiplying by the product |
| Vectors.ScaleDot | src/vector2d.rs:56-70 | scaling a vector scales its dot products by the same factor |
| Vectors.AddLaws | src/vector2d.rs:72-86 | addition is commutative and associative, and the dot product distributes over it |
| Vectors.NormalLeft | src/vector2d.rs:29-32 | the left normal starts at the origin, is perpendicular to the vector and has unit length |
| Vectors.NormalRightAsWritten | src/vector2d.rs:34-37 | the source's right normal starts at the origin with end (dy, dx) divided by the length |
| Vectors.NormalRightAsWrittenSkew | src/vector2d.rs:34-37 | its dot product with the vector is 2·dx·dy/len, zero only for axis-parallel vectors |
| Vectors.NormalRightAsWrittenNotPerpendicular | src/vector2d.rs:34-37 | for (0,0)→(3,4) of length 5 its dot product with the vector is 4.8, not 0 |
| Vectors.NormalRight | src/vector2d.rs:34-37 | the corrected right normal starts at the origin, is perpendicular to the vector, has unit length and points opposite to the left normal |
| Canvas.CalculateColorValue | src/raw_canvas.rs:53-58 | when the four shifts are distinct byte positions, each channel can be read back from its byte of the packed word |
| Canvas.ColorValueInjective | src/raw_canvas.rs:53-58 | with such a layout two colours pack to the same word exactly when they are equal |
| Canvas.PixelOffset | src/raw_canvas.rs:68-69 | the offset is inside the buffer; its row is height − y − 1, so rows are stored bottom-up; its column is x |
| Canvas.OffsetInjective | src/raw_canvas.rs:68-69 | distinct in-bounds pixels have distinct offsets; row 0 is the last buffer row and row height − 1 the first |
| Canvas.PutPixel | src/raw_canvas.rs:68-73 | the pixel then holds the packed colour, every other word is unchanged, and size and layout stay |
| Canvas.PutThenGet | src/raw_canvas.rs:68-73 | reading after a write gives the written colour at that pixel and the old word everywhere else |
| Canvas.CleanColor | src/raw_canvas.rs:60-66 | every word of the buffer holds the packed colour afterwards |
| LineRaster.HorizontalRun | src/line.rs:32-37 | a horizontal line writes every x from the smaller to the larger endpoint, ends included, on its row |
| LineRaster.VerticalRun | src/line.rs:38-43 | a vertical line writes every y from the lower to the upper endpoint, ends included, in its column |
| LineRaster.SlopeClass | src/line.rs:29-81 | the floating-point slope tests pick the same branch as integer comparisons of the deltas |
| LineRaster.WalkSteepUp | src/line.rs:45-56 | a steep rising line writes dy pixels, one per row from the first endpoint, x advancing by 0 or 1, all inside the endpoints' box |
| LineRaster.SteepUpKeep | src/line.rs:49-50 | keeping x keeps the error term's meaning |
| LineRaster.SteepUpMove | src/line.rs:51-53 | stepping x keeps the error term's meaning and x never passes the last endpoint |
| LineRaster.SteepUpBound | src/line.rs:45-56 | the error term bounds the number of x steps by dx |
| LineRaster.WalkShallowUp | src/line.rs:57-68 | a shallow rising line writes dx pixels, one per column, y advancing by 0 or 1, inside the box |
| LineRaster.ShallowUpKeep | src/line.rs:64-65 | keeping y keeps the error term's meaning |
| LineRaster.ShallowUpMove | src/line.rs:61-63 | stepping y keeps the error term's meaning and y never passes the last endpoint |
| LineRaster.ShallowUpBound | src/line.rs:57-68 | the error term bounds the number of y steps by dy |
| LineRaster.WalkSteepDown | src/line.rs:69-80 | a steep falling line writes −dy pixels, one per row downwards, x advancing by 0 or 1, inside the box |
| LineRaster.SteepDownKeep | src/line.rs:76-77 | keeping x keeps the error term's meaning |
| LineRaster.SteepDownMove | src/line.rs:73-75 | stepping x keeps the error term's meaning and x never passes the last endpoint |
| LineRaster.SteepDownBound | src/line.rs:69-80 | the error term bounds the number of x steps by dx |
| LineRaster.WalkShallowDown | src/line.rs:81-93 | a shallow falling line writes dx pixels, one per column, y falling by 0 or 1, inside the box |
| LineRaster.ShallowDownKeep | src/line.rs:85-86 | keeping y keeps the error term's meaning |
| LineRaster.ShallowDownMove | src/line.rs:87-89 | stepping y keeps the error term's meaning and y never passes the last endpoint |
| LineRaster.ShallowDownBound | src/line.rs:81-93 | the error term bounds the number of y steps by −dy |
| LineRaster.XMajorConnected | src/line.rs:57-93 | a walk with one pixel per column and y changing by at most one is 8-connected |
| LineRaster.YMajorConnected | src/line.rs:45-80 | a walk with one pixel per row and x changing by at most one is 8-connected |
| LineRaster.DrawLine | src/line.rs:21-96 | horizontal and vertical lines write the whole run, ends included; any other line writes max(\|dx\|, \|dy\|) connected pixels from the first endpoint inside the endpoints' box, never the last endpoint, stepping along the major axis of its octant |
| ScanFill.TruncDiv | src/polygon.rs:128 | `i32` division truncates toward zero: the quotient's magnitude is the quotient of the magnitudes, and it is non-negative when the operands have the same sign and non-positive otherwise |
| ScanFill.TruncRemainder | src/polygon.rs:128-135 | the truncating remainder has the numerator's sign and the magnitude of the Euclidean remainder of the magnitudes |
| ScanFill.TruncSplit | src/polygon.rs:128-135 | numerator minus quotient times denominator is smaller than the denominator in magnitude and keeps the numerator's sign |
| ScanFill.TruncAtDivisor | src/polygon.rs:128-129 | a numerator of magnitude equal to the denominator divides to exactly ±1 |
| ScanFill.ReducedIsRemainder | src/polygon.rs:129-135 | the source's two reduction branches both compute numerator minus quotient times denominator |
| ScanFill.DescribeMeaning | src/polygon.rs:53-73 | a side is bucketed under its lower y and ends at its upper y; it starts at its lower endpoint's x with a zero fraction; its inverse slope has denominator \|dy\| (zero for vertical and horizontal sides) and is the signed run over that rise |
| ScanFill.NextIndex | src/polygon.rs:47-52 | side i runs to vertex (i + 1) mod n, wrapping at the last vertex |
| ScanFill.Sides | src/polygon.rs:47-76 | the loop describes one side per vertex, in order |
| ScanFill.BucketedRows | src/polygon.rs:74-75 | a row is a key of the table exactly when some side starts on it, and holds the sides starting there |
| ScanFill.BucketNonEmpty | src/polygon.rs:74-75 | a row's bucket is non-empty exactly when some side's lower y is that row |
| ScanFill.BucketHas | src/polygon.rs:74-75 | every side is in the bucket of its lower row |
| ScanFill.InsertByX | src/polygon.rs:78-80 | inserting into a list sorted by start x keeps it sorted and adds exactly that edge |
| ScanFill.SortByX | src/polygon.rs:78-80 | the result is sorted by start x and is a permutation of the input |
| ScanFill.FromPointsRows | src/polygon.rs:43-82 | fewer than two points give an empty table; otherwise the keys are exactly the sides' lower rows, and each row is a sorted permutation of the sides starting there |
| ScanFill.InsertRow | src/polygon.rs:94-104 | a row without bucket leaves the active list untouched; otherwise the list becomes a sorted permutation of itself plus the bucket |
| ScanFill.KeepCounts | src/polygon.rs:106-121 | removal keeps every copy of an edge ending on or after the row and drops every other edge |
| ScanFill.KeepAppend | src/polygon.rs:106-121 | removal works edge by edge and keeps the list order |
| ScanFill.RemoveLowerEdges | src/polygon.rs:106-121 | the two-pass removal gives the edges ending on or after the row, in their order |
| ScanFill.Advance | src/polygon.rs:123-139 | advancing an edge keeps its end row, inverse slope and denominator, and leaves an edge with denominator zero where it is |
| ScanFill.AdvanceAsWritten | src/polygon.rs:125-138 | as written, an advance moves the exact x by one inverse slope unless the new numerator equals ± the denominator; then it keeps that numerator unreduced and over-counts by one whole step |
| ScanFill.AdvanceExact | src/polygon.rs:125-138 | with the reduction also applied at ± the denominator, the fraction stays proper and the exact x moves by exactly one inverse slope |
| ScanFill.DiagonalDrift | src/polygon.rs:123-139 | in the triangle (0,6),(0,0),(6,6) the side (0,0)–(6,6) has inverse slope 6/6 and ends on row 6; after four rows it is at x 6 as written and at x 4 with the correction |
| ScanFill.DiagonalDriftSpan | src/polygon.rs:153-160 | on row 4 of that triangle, paired with the vertical side at x 0, the source's span writes (5,4), which lies strictly outside the triangle, and the corrected span does not |
| ScanFill.PairSpanned | src/polygon.rs:153-160 | a row filled from two edges gets exactly the pixels from the first edge's x up to, but not including, the second's |
| ScanFill.VerticalStays | src/polygon.rs:125-138 | an edge with denominator zero keeps its x however many rows it advances |
| ScanFill.NoDrift | src/polygon.rs:123-140 | with the correction, after k rows the exact x has moved by exactly k inverse slopes |
| ScanFill.AdvanceTimesKeeps | src/polygon.rs:123-140 | any number of advances keeps an edge's end row |
| ScanFill.IncrementRow | src/polygon.rs:123-140 | every edge advances in place, edge by edge: end row, slope and denominator kept, an edge with denominator zero unmoved, the fraction bounded by the denominator; with the correction each moves by exactly one inverse slope; no end row is lost |
| ScanFill.RowSpans | src/polygon.rs:152-161 | a row's pixels are exactly the x positions, after the `u32` cast, in the half-open spans between edges 2j and 2j + 1 |
| ScanFill.MinY | src/polygon.rs:147 | the result is the y of some vertex and at most every vertex's y |
| ScanFill.MaxY | src/polygon.rs:148 | the result is the y of some vertex and at least every vertex's y |
| ScanFill.WalkCrosses | src/polygon.rs:47-76 | walking the closed polygon from a vertex below a row to one above it crosses the row on some side |
| ScanFill.RowCovered | src/polygon.rs:147-149 | every row from the lowest to the highest vertex is crossed by some side |
| ScanFill.SideAboveMin | src/polygon.rs:53-58 | every side starts on or above the lowest vertex and ends on or above its own lower row |
| ScanFill.EnteringFirst | src/polygon.rs:146-149 | no side has entered before the lowest row, matching the empty list the loop starts from |
| ScanFill.SidesStep | src/polygon.rs:47-76 | one more side adds its carried edge to the crossing list when it spans the row, to the entering list when it entered the row, and its description to the row's bucket when it starts there |
| ScanFill.SideSplits | src/polygon.rs:150-151 | a side crosses a row exactly when it entered the row and removal keeps it, or it starts on the row |
| ScanFill.CrossingSplits | src/polygon.rs:150-151 | counted with multiplicity, the edges crossing a row are the entering edges removal keeps plus the row's bucket |
| ScanFill.KeepPermutes | src/polygon.rs:106-121 | removal maps permutations of a list to permutations of each other |
| ScanFill.TableRow | src/polygon.rs:74-80 | the table's entry for a row is a permutation of the sides starting there, and missing when none does |
| ScanFill.CrossingHas | src/polygon.rs:150-151 | every side spanning a row contributes its own edge, advanced once per row since its lower row, to the row's crossing edges |
| ScanFill.RowActive | src/polygon.rs:150-151 | if the active list holds exactly the edges entering the row, then after removal and insertion it holds exactly the edges of the sides crossing the row (as multisets), each advanced once per row since its side's lower row |
| ScanFill.AdvanceAllAt | src/polygon.rs:123-140 | the i-th advanced edge is the advance of the i-th edge |
| ScanFill.AdvanceAllAppend | src/polygon.rs:123-140 | advancing a concatenation advances each part |
| ScanFill.AdvancePermutes | src/polygon.rs:123-140 | advancing two permutations of a list gives permutations of each other |
| ScanFill.AdvanceRemove | src/polygon.rs:123-140 | taking one edge out of a list takes exactly its advanced copy out of the advanced list |
| ScanFill.AdvanceCrossing | src/polygon.rs:162 | advancing the edges crossing a row gives, in order, exactly the edges entering the next row |
| ScanFill.NextEntering | src/polygon.rs:162 | a list holding exactly the crossing edges advances to one holding exactly the next row's entering edges |
| ScanFill.ScanRow | src/polygon.rs:150-162 | from an active list holding exactly the edges entering the row: the list the row is filled from is the row's bucket inserted after removal, holds exactly the edges of the sides crossing the row and is never empty; the spans are exactly its even spans; the next list is it advanced edge by edge and holds exactly the next row's entering edges |
| ScanFill.FilledExtend | src/polygon.rs:149-162 | filling one more row adds exactly that row's spans to the filled pixels |
| ScanFill.ChainedSnoc | src/polygon.rs:149-151 | one more list continues the chain exactly when it is its row's bucket inserted into the previous list advanced, after removal |
| ScanFill.ChainExtend | src/polygon.rs:149-151 | appending the list the loop computes for the next row keeps the chain |
| ScanFill.CrossingRowsExtend | src/polygon.rs:149-151 | appending the next row's crossing list keeps every list a crossing list |
| ScanFill.CrossingRowsCarry | src/polygon.rs:150-151 | a list holding exactly a row's crossing edges holds each spanning side's own edge advanced once per row since its lower row |
| ScanFill.FillStart | src/polygon.rs:145-149 | before the lowest row the loop state holds with nothing active, no list and no pixel |
| ScanFill.FillExtend | src/polygon.rs:149-163 | one pass keeps the loop state: lists chained as the loop computes them, each exactly its row's crossing edges, the advanced list exactly the next row's entering edges, and the pixels exactly the spans so far |
| ScanFill.FillRow | src/polygon.rs:150-162 | one pass of the row loop keeps the loop state |
| ScanFill.Fill | src/polygon.rs:143-164 | one active list per row from the lowest to the highest vertex, chained as the source's loop computes them; each holds exactly the edges of the sides crossing its row, so every spanning side's own edge, advanced once per row since its lower row, is in it; the pixels are exactly the even spans of those lists; with `reduceAtDenominator` false the advance is the source's, with true the corrected one |
| Shapes.Render | src/draw.rs:3-5 | a point writes itself in red; a line writes its rasterised pixels in red; a polygon writes, in its own colour and between its lowest and highest vertex, exactly the even spans of the active lists the source's loop computes with the source's advance |
| Shapes.FillPolygon | src/polygon.rs:143-164 | a polygon's writes are all in its colour, between its lowest and highest vertex, and their pixels are exactly the even spans of the active lists the source's loop computes, with the source's advance |
| Shapes.StepKeepsUntouched | src/raw_canvas.rs:68-73 | one more `put_pixel` keeps every pixel neither it nor the earlier writes target |
| Shapes.StepShowsLastWrites | src/raw_canvas.rs:68-73 | after one more `put_pixel`, every targeted pixel still shows the colour of its last write |
| Shapes.Apply | src/raw_canvas.rs:68-73 | after a sequence of `put_pixel` calls, untouched pixels keep their words and each targeted pixel shows the colour of its last write |

## Left out

- `RawCanvas::new` (src/raw_canvas.rs:31-51) reads an SDL surface. The model takes the surface size, the buffer and the four shifts as data.
- `Vector2d::length` takes a square root. Dafny's reals have no square root, and one could only be introduced by an axiom. Operations that need the length take it as a parameter `len`, with `len > 0` and `len * len` equal to the squared length (`Vectors.IsLength`).
- Floating-point rounding, `.round()` and the saturating `f32 as u32` casts are not modelled. Polygon vertices and line endpoints are the already converted non-negative integers. Clipping and vectors use exact reals.
- `i32` overflow in the polygon fill and `u32` overflow of `right + 1`, `top + 1` and `biggest_y + 1` at `u32::MAX` are not modelled.
- LineRaster.DrawLine: a sloped line whose first x is not smaller than its last underflows a `u32` loop bound in the source. The model requires `fx < lx` for sloped lines instead of modelling the wrap-around.
- ScanFill.Fill: fewer than two vertices make the source panic, so the model requires at least two.
- Canvas.PutPixel: the source writes through a raw pointer without a bounds check. The model requires the pixel to be on the canvas.
- ScanFill.InsertRow: `sort_by` is stable, but the model only says the result is a sorted permutation. Which of several edges with the same start x comes first is not fixed.
- `raw_canvas.rs` declares its own copy of `PixelColor`, identical to `src/pixel_color.rs`. It is modelled once. `PixelColor::black` is not used by the drawing code and is left out.
- The constructors `Line::new`, `Point2d::new`, `Polygon::new` and `ClippingRectangle::new` only store their arguments. They are the datatype constructors here.
- `Point2d::draw` casts its float coordinates to `u32`. The model's `Dot` shape takes the cast coordinates.
- `src/main.rs` (window set-up and the event loop) is not part of this model.

## Findings

| source | as written | input that shows it | evidently intended | confidence | as-written member | corrected member |
|---|---|---|---|---|---|---|
| src/polygon.rs:129-136 | the fraction is reduced only when \|nominator\| > denominator, although a whole step was already added to `increment` | the triangle (0,6),(0,0),(6,6): on row 4 the side (0,0)–(6,6) is at x 6 instead of 4, so (5,4), strictly outside the triangle, is filled | reduce when \|nominator\| >= denominator, keeping the fraction proper | high; not executed | ScanFill.AdvanceAsWritten, ScanFill.DiagonalDrift, ScanFill.DiagonalDriftSpan, ScanFill.Fill with `reduceAtDenominator` false | ScanFill.AdvanceExact, ScanFill.NoDrift, ScanFill.Fill with `reduceAtDenominator` true |
| src/vector2d.rs:59-61 | `mul` sets y0 to x0 * rhs (the same at lines 67-69) | (0,1)→(0,0) times 1 gives (0,0)→(0,0) | y0 * rhs | high; not executed | Vectors.MulAsWritten, Vectors.MulAsWrittenByOne | Vectors.Scale, Vectors.ScaleLaws |
| src/vector2d.rs:34-37 | `normal_right` is (dy, dx) / length, which is not perpendicular to the vector | (0,0)→(3,4): the dot product with its right normal is 4.8 | (dy, −dx) / length, the negation of the left normal | high; not executed | Vectors.NormalRightAsWritten, Vectors.NormalRightAsWrittenNotPerpendicular | Vectors.NormalRight |

The model keeps the source's behaviour where it renders: `Shapes.Render`
and `Shapes.FillPolygon` fill a polygon with the source's advance, drift
included. The corrected fill is `ScanFill.Fill` with `reduceAtDenominator`
true.
