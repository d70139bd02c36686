/**
 * The drawable shapes (the `Draw` trait of src/draw.rs and its
 * implementations): a closed set of shapes, each rendered to the sequence
 * of pixel writes it hands to `put_pixel`, and the effect of those writes
 * on a canvas.
 */
module Shapes {

  import opened Geometry
  import Canvas
  import LineRaster
  import ScanFill

  /**
   * A shape, on truncated pixel coordinates: a single point
   * (src/point2d.rs:21-26), a line (src/line.rs:21-96) or a filled polygon
   * with its colour (src/polygon.rs:143-164).
   */
  datatype Shape =
    | Dot(x: nat, y: nat)
    | Segment(fx: nat, fy: nat, lx: nat, ly: nat)
    | Polygon(color: Canvas.PixelColor, points: seq<ScanFill.Vertex>)

  /** One `put_pixel` call. */
  datatype Write = Write(pixel: Pixel, color: Canvas.PixelColor)

  /**
   * The shapes the source draws without a panic: a line whose slope branch
   * walks towards larger x (or that is horizontal or vertical), and a
   * polygon with at least two vertices.
   */
  predicate Drawable(s: Shape)
  {
    match s
    case Dot(_, _) => true
    case Segment(fx, fy, lx, ly) => fy == ly || fx == lx || fx < lx
    case Polygon(_, points) => |points| >= 2
  }

  /** The pixels of a sequence of writes, in order. */
  function PixelsOf(ws: seq<Write>): (ps: seq<Pixel>)
    ensures |ps| == |ws| && forall i | 0 <= i < |ws| :: ps[i] == ws[i].pixel
  {
    if ws == [] then [] else [ws[0].pixel] + PixelsOf(ws[1..])
  }

  /** The same colour for every pixel. */
  function Paint(ps: seq<Pixel>, color: Canvas.PixelColor): (ws: seq<Write>)
    ensures PixelsOf(ws) == ps && forall i | 0 <= i < |ws| :: ws[i].color == color
  {
    if ps == [] then [] else [Write(ps[0], color)] + Paint(ps[1..], color)
  }

  /**
   * `pixels` are exactly the even spans of the active lists the source's
   * row loop computes for `points`, one list per row from the lowest to the
   * highest vertex, with the source's advance.
   */
  ghost predicate SourceFill(points: seq<ScanFill.Vertex>, pixels: seq<Pixel>)
    requires |points| >= 2
  {
    exists actives ::
      && |actives| == ScanFill.MaxY(points) - ScanFill.MinY(points) + 1
      && ScanFill.Chained(ScanFill.FromPoints(points), actives, ScanFill.MinY(points), false)
      && ScanFill.FilledFrom(pixels, actives, ScanFill.MinY(points))
  }

  /**
   * `Draw::draw` for each shape: a point writes itself in red, a line writes
   * its rasterised pixels in red, and a polygon writes its scan-line spans,
   * all between its lowest and highest vertex, in its own colour: exactly
   * the even spans of the active lists the source's loop computes, with
   * the source's advance.
   */
  method Render(s: Shape) returns (ws: seq<Write>)
    requires Drawable(s)
    ensures s.Dot? ==> ws == [Write(Pixel(s.x, s.y), Canvas.Red)]
    ensures s.Segment? ==>
              && LineRaster.Rasterised(s.fx, s.fy, s.lx, s.ly, PixelsOf(ws))
              && forall i | 0 <= i < |ws| :: ws[i].color == Canvas.Red
    ensures s.Polygon? ==>
              forall i | 0 <= i < |ws| ::
                && ws[i].color == s.color
                && ScanFill.MinY(s.points) <= ws[i].pixel.y <= ScanFill.MaxY(s.points)
    ensures s.Polygon? ==> SourceFill(s.points, PixelsOf(ws))
  {
    match s
    case Dot(x, y) =>
      ws := [Write(Pixel(x, y), Canvas.Red)];
    case Segment(fx, fy, lx, ly) =>
      var ps := LineRaster.DrawLine(fx, fy, lx, ly);
      ws := Paint(ps, Canvas.Red);
    case Polygon(color, points) =>
      ws := FillPolygon(color, points);
  }

  /**
   * `Polygon::draw` (src/polygon.rs:143-164) as writes: the source's fill,
   * every pixel in the polygon's colour.
   */
  method FillPolygon(color: Canvas.PixelColor, points: seq<ScanFill.Vertex>) returns (ws: seq<Write>)
    requires |points| >= 2
    ensures forall i | 0 <= i < |ws| ::
              && ws[i].color == color
              && ScanFill.MinY(points) <= ws[i].pixel.y <= ScanFill.MaxY(points)
    ensures SourceFill(points, PixelsOf(ws))
  {
    var ps, actives := ScanFill.Fill(points, false);
    ws := Paint(ps, color);
    assert forall i | 0 <= i < |ws| :: ws[i].pixel in ps;
  }

  /** Every write lands inside the canvas. */
  predicate OnCanvas(c: Canvas.RawCanvas, ws: seq<Write>)
  {
    forall i | 0 <= i < |ws| :: ws[i].pixel.x < c.width && ws[i].pixel.y < c.height
  }

  /** Whether some write targets `p`. */
  predicate Touches(ws: seq<Write>, p: Pixel)
  {
    exists i | 0 <= i < |ws| :: ws[i].pixel == p
  }

  /** No later write targets the pixel of write `i`. */
  predicate LastWrite(ws: seq<Write>, i: nat)
    requires i < |ws|
  {
    forall j | i < j < |ws| :: ws[j].pixel != ws[i].pixel
  }

  /** Every in-bounds pixel no write targets has the same word in `r` as in `c`. */
  predicate KeepsUntouched(c: Canvas.RawCanvas, ws: seq<Write>, r: Canvas.RawCanvas)
    requires Canvas.Valid(c) && Canvas.Valid(r) && r.width == c.width && r.height == c.height
  {
    forall x: nat, y: nat | x < c.width && y < c.height && !Touches(ws, Pixel(x, y)) ::
      Canvas.GetPixel(r, x, y) == Canvas.GetPixel(c, x, y)
  }

  /** Every pixel shows, in `r`, the colour of the last write to it. */
  predicate ShowsLastWrites(ws: seq<Write>, r: Canvas.RawCanvas)
    requires Canvas.Valid(r) && OnCanvas(r, ws)
  {
    forall i | 0 <= i < |ws| && LastWrite(ws, i) ::
      Canvas.GetPixel(r, ws[i].pixel.x, ws[i].pixel.y) == Canvas.CalculateColorValue(r.format, ws[i].color)
  }

  /**
   * The canvas after the writes, performed in order with `put_pixel`. A
   * pixel no write targets keeps its word; a targeted pixel shows the
   * colour of the last write to it.
   */
  function Apply(c: Canvas.RawCanvas, ws: seq<Write>): (r: Canvas.RawCanvas)
    requires Canvas.Valid(c) && OnCanvas(c, ws)
    ensures Canvas.Valid(r) && r == c.(pixels := r.pixels)
    ensures KeepsUntouched(c, ws, r)
    ensures ShowsLastWrites(ws, r)
    decreases |ws|
  {
    if ws == [] then c
    else
      var last := ws[|ws| - 1];
      var before := Apply(c, ws[..|ws| - 1]);
      var r := Canvas.PutPixel(before, last.pixel.x, last.pixel.y, last.color);
      StepKeepsUntouched(c, ws, before);
      StepShowsLastWrites(c, ws, before);
      r
  }

  /** One more write keeps every pixel it and the earlier writes miss. */
  lemma StepKeepsUntouched(c: Canvas.RawCanvas, ws: seq<Write>, before: Canvas.RawCanvas)
    requires Canvas.Valid(c) && OnCanvas(c, ws) && ws != []
    requires Canvas.Valid(before) && before == c.(pixels := before.pixels)
    requires KeepsUntouched(c, ws[..|ws| - 1], before)
    ensures var last := ws[|ws| - 1];
            KeepsUntouched(c, ws, Canvas.PutPixel(before, last.pixel.x, last.pixel.y, last.color))
  {
    var last := ws[|ws| - 1];
    var r := Canvas.PutPixel(before, last.pixel.x, last.pixel.y, last.color);
    forall x: nat, y: nat | x < c.width && y < c.height && !Touches(ws, Pixel(x, y))
      ensures Canvas.GetPixel(r, x, y) == Canvas.GetPixel(c, x, y)
    {
      assert !Touches(ws[..|ws| - 1], Pixel(x, y));
      assert Pixel(x, y) != last.pixel;
      Canvas.PutThenGet(before, last.pixel.x, last.pixel.y, last.color, x, y);
    }
  }

  /** After one more write, every pixel still shows the colour of its last write. */
  lemma StepShowsLastWrites(c: Canvas.RawCanvas, ws: seq<Write>, before: Canvas.RawCanvas)
    requires Canvas.Valid(c) && OnCanvas(c, ws) && ws != []
    requires Canvas.Valid(before) && before == c.(pixels := before.pixels)
    requires ShowsLastWrites(ws[..|ws| - 1], before)
    ensures var last := ws[|ws| - 1];
            ShowsLastWrites(ws, Canvas.PutPixel(before, last.pixel.x, last.pixel.y, last.color))
  {
    var last := ws[|ws| - 1];
    var r := Canvas.PutPixel(before, last.pixel.x, last.pixel.y, last.color);
    forall i | 0 <= i < |ws| && LastWrite(ws, i)
      ensures Canvas.GetPixel(r, ws[i].pixel.x, ws[i].pixel.y) == Canvas.CalculateColorValue(c.format, ws[i].color)
    {
      if i < |ws| - 1 {
        assert LastWrite(ws[..|ws| - 1], i);
        Canvas.PutThenGet(before, last.pixel.x, last.pixel.y, last.color, ws[i].pixel.x, ws[i].pixel.y);
      }
    }
  }
}
