/**
 * Points and lines of the continuous plane (src/point2d.rs, src/line.rs).
 * Coordinates are exact reals; the source stores them as `f32`.
 */
module Geometry {

  /** A point of the plane. */
  datatype Point2d = Point2d(x: real, y: real)

  /** A pixel position of the canvas: the `u32` coordinates handed to `put_pixel`. */
  datatype Pixel = Pixel(x: nat, y: nat)

  /** A directed segment from `first` to `last`. */
  datatype Line = Line(first: Point2d, last: Point2d)

  /** The point of the line through `l` at parameter `t`: `first` at 0, `last` at 1. */
  function PointAt(l: Line, t: real): Point2d
  {
    Point2d(l.first.x + t * (l.last.x - l.first.x), l.first.y + t * (l.last.y - l.first.y))
  }

  /** The cross product of `l`'s direction with the offset of `p` from `l.first`. */
  function Cross(l: Line, p: Point2d): real
  {
    (p.x - l.first.x) * (l.last.y - l.first.y) - (p.y - l.first.y) * (l.last.x - l.first.x)
  }

  /**
   * `p` lies on the (infinite) line through `l`; when `l` is a single point,
   * `p` must be that point.
   */
  predicate OnLine(l: Line, p: Point2d)
  {
    if l.first == l.last then p == l.first else Cross(l, p) == 0.0
  }

  /** Every point `PointAt(l, t)` lies on the line through `l`. */
  lemma PointAtOnLine(l: Line, t: real)
    ensures OnLine(l, PointAt(l, t))
  {
    var dx, dy := l.last.x - l.first.x, l.last.y - l.first.y;
    assert (t * dx) * dy == (t * dy) * dx;
  }

  /** The parameter end points are the segment's own end points. */
  lemma PointAtEnds(l: Line)
    ensures PointAt(l, 0.0) == l.first && PointAt(l, 1.0) == l.last
  {
  }
}
