/**
 * Two-dimensional vectors given by a start and an end point
 * (src/vector2d.rs), over exact reals.
 */
module Vectors {

  import opened Geometry

  /** A vector from `(x0, y0)` to `(x1, y1)`. */
  datatype Vector2d = Vector2d(x0: real, y0: real, x1: real, y1: real)

  /** `Vector2d::from_2d_points` (src/vector2d.rs:17-19). */
  function FromPoints(from: Point2d, to: Point2d): Vector2d
  {
    Vector2d(from.x, from.y, to.x, to.y)
  }

  /** `Vector2d::get_from` (src/vector2d.rs:39-41). */
  function GetFrom(v: Vector2d): Point2d
  {
    Point2d(v.x0, v.y0)
  }

  /** `Vector2d::get_to` (src/vector2d.rs:43-45). */
  function GetTo(v: Vector2d): Point2d
  {
    Point2d(v.x1, v.y1)
  }

  /** A vector is determined by its two points, and gives them back. */
  lemma FromPointsRoundTrip(from: Point2d, to: Point2d, v: Vector2d)
    ensures GetFrom(FromPoints(from, to)) == from && GetTo(FromPoints(from, to)) == to
    ensures FromPoints(GetFrom(v), GetTo(v)) == v
  {
  }

  function Dx(v: Vector2d): real
  {
    v.x1 - v.x0
  }

  function Dy(v: Vector2d): real
  {
    v.y1 - v.y0
  }

  /** The squared length, the argument of the `sqrt` in `length` (src/vector2d.rs:21-23). */
  function LengthSquared(v: Vector2d): real
  {
    Dx(v) * Dx(v) + Dy(v) * Dy(v)
  }

  /** `Vector2d::dot` (src/vector2d.rs:25-27): the dot product of the two differences. */
  function Dot(v: Vector2d, w: Vector2d): real
  {
    (v.x1 - v.x0) * (w.x1 - w.x0) + (v.y1 - v.y0) * (w.y1 - w.y0)
  }

  /** The dot product is symmetric. */
  lemma DotSymmetric(v: Vector2d, w: Vector2d)
    ensures Dot(v, w) == Dot(w, v)
  {
  }

  /** Both points of `v` moved by `(tx, ty)`. */
  function Translate(v: Vector2d, tx: real, ty: real): Vector2d
  {
    Vector2d(v.x0 + tx, v.y0 + ty, v.x1 + tx, v.y1 + ty)
  }

  /** The dot product depends only on the differences, so translation leaves it unchanged. */
  lemma DotTranslate(v: Vector2d, w: Vector2d, tx: real, ty: real)
    ensures Dot(Translate(v, tx, ty), w) == Dot(v, w)
    ensures Dot(v, w) == Dx(v) * Dx(w) + Dy(v) * Dy(w)
  {
  }

  /** The dot product of a vector with itself is its squared length. */
  lemma DotSelf(v: Vector2d)
    ensures Dot(v, v) == LengthSquared(v)
  {
  }

  /** `Div` (src/vector2d.rs:48-54): all four coordinates over the same scalar. */
  function Div(v: Vector2d, rhs: real): (r: Vector2d)
    requires rhs != 0.0
    ensures r.x0 * rhs == v.x0 && r.y0 * rhs == v.y0 && r.x1 * rhs == v.x1 && r.y1 * rhs == v.y1
  {
    Vector2d(v.x0 / rhs, v.y0 / rhs, v.x1 / rhs, v.y1 / rhs)
  }

  /**
   * `Mul` as written (src/vector2d.rs:56-70): `x0`, `x1` and `y1` are
   * scaled, but `y0` is set to the scaled `x0`.
   */
  function MulAsWritten(v: Vector2d, rhs: real): Vector2d
  {
    Vector2d(v.x0 * rhs, v.x0 * rhs, v.x1 * rhs, v.y1 * rhs)
  }

  /** Multiplying by one gives the vector back only when its `y0` equals its `x0`. */
  lemma MulAsWrittenByOne(v: Vector2d)
    ensures MulAsWritten(v, 1.0) == v <==> v.y0 == v.x0
    ensures MulAsWritten(Vector2d(0.0, 1.0, 0.0, 0.0), 1.0) != Vector2d(0.0, 1.0, 0.0, 0.0)
  {
  }

  /** `Mul` as evidently intended: every coordinate scaled. */
  function Scale(v: Vector2d, rhs: real): Vector2d
  {
    Vector2d(v.x0 * rhs, v.y0 * rhs, v.x1 * rhs, v.y1 * rhs)
  }

  /** Scaling undoes `Div` by the same scalar. */
  lemma ScaleUndoesDiv(v: Vector2d, a: real)
    requires a != 0.0
    ensures Scale(Div(v, a), a) == v
  {
  }

  /**
   * Scaling is a multiplicative action: by one it is the identity and two
   * scalings compose.
   */
  lemma ScaleLaws(v: Vector2d, a: real, b: real)
    ensures Scale(v, 1.0) == v
    ensures Scale(Scale(v, a), b) == Scale(v, a * b)
  {
    ScaleTwice(v.x0, a, b);
    ScaleTwice(v.y0, a, b);
    ScaleTwice(v.x1, a, b);
    ScaleTwice(v.y1, a, b);
  }

  lemma ScaleTwice(x: real, a: real, b: real)
    ensures (x * a) * b == x * (a * b)
  {
  }

  /** Scaling a vector scales its dot product with any other. */
  lemma ScaleDot(v: Vector2d, w: Vector2d, a: real)
    ensures Dot(Scale(v, a), w) == a * Dot(v, w)
  {
    ScaleDifference(a, v.x1, v.x0, w.x1 - w.x0);
    ScaleDifference(a, v.y1, v.y0, w.y1 - w.y0);
    var px, py := (v.x1 - v.x0) * (w.x1 - w.x0), (v.y1 - v.y0) * (w.y1 - w.y0);
    assert Dot(v, w) == px + py;
    assert a * (px + py) == a * px + a * py;
  }

  /** Scaling both ends of a difference scales its product with `c`. */
  lemma ScaleDifference(a: real, p: real, q: real, c: real)
    ensures (p * a - q * a) * c == a * ((p - q) * c)
  {
    assert p * a - q * a == (p - q) * a;
  }

  /** `Add` (src/vector2d.rs:72-86): component-wise. */
  function Add(v: Vector2d, w: Vector2d): Vector2d
  {
    Vector2d(v.x0 + w.x0, v.y0 + w.y0, v.x1 + w.x1, v.y1 + w.y1)
  }

  /** Addition is commutative and associative, and the dot product distributes over it. */
  lemma AddLaws(u: Vector2d, v: Vector2d, w: Vector2d)
    ensures Add(u, v) == Add(v, u)
    ensures Add(Add(u, v), w) == Add(u, Add(v, w))
    ensures Dot(Add(u, v), w) == Dot(u, w) + Dot(v, w)
  {
  }

  /**
   * `len` is the length of `v`: the source computes it with `sqrt`, which
   * is passed in here as a number whose square is the squared length.
   */
  predicate IsLength(v: Vector2d, len: real)
  {
    len > 0.0 && len * len == LengthSquared(v)
  }

  /**
   * `Vector2d::normal_left` (src/vector2d.rs:29-32): `(-dy, dx)` divided by
   * the length, as a vector from the origin. It is perpendicular to `v` and
   * has length one.
   */
  function NormalLeft(v: Vector2d, len: real): (n: Vector2d)
    requires IsLength(v, len)
    ensures GetFrom(n) == Point2d(0.0, 0.0)
    ensures Dot(v, n) == 0.0
    ensures LengthSquared(n) == 1.0
  {
    var n := Div(Vector2d(0.0, 0.0, -(v.y1 - v.y0), v.x1 - v.x0), len);
    ScaledSquare(n.x1, -(v.y1 - v.y0), len);
    ScaledSquare(n.y1, v.x1 - v.x0, len);
    UnitWhenScaled(n.x1, n.y1, -(v.y1 - v.y0), v.x1 - v.x0, len);
    assert Dot(v, n) == (Dx(v) * (-Dy(v)) + Dy(v) * Dx(v)) / len;
    n
  }

  /**
   * If `(nx, ny)` times `len` has squared length `len * len`, then
   * `(nx, ny)` has length one.
   */
  lemma UnitWhenScaled(nx: real, ny: real, a: real, b: real, len: real)
    requires len > 0.0 && a * a + b * b == len * len
    requires (nx * nx) * (len * len) == a * a && (ny * ny) * (len * len) == b * b
    ensures nx * nx + ny * ny == 1.0
  {
    Distribute(nx * nx, ny * ny, len * len);
    assert (nx * nx + ny * ny) * (len * len) == a * a + b * b;
    CancelSquare(nx * nx + ny * ny, len, a * a + b * b);
  }

  /** Squaring both sides of `nx * len == a`. */
  lemma ScaledSquare(nx: real, a: real, len: real)
    requires nx * len == a
    ensures (nx * nx) * (len * len) == a * a
  {
  }

  lemma Distribute(p: real, q: real, s: real)
    ensures (p + q) * s == p * s + q * s
  {
  }

  lemma CancelSquare(u: real, len: real, s: real)
    requires len > 0.0 && u * (len * len) == s && s == len * len
    ensures u == 1.0
  {
    assert (u - 1.0) * (len * len) == 0.0;
    assert (u - 1.0) * len == 0.0;
  }

  /**
   * `Vector2d::normal_right` as written (src/vector2d.rs:34-37): `(dy, dx)`
   * divided by the length, as a vector from the origin.
   */
  function NormalRightAsWritten(v: Vector2d, len: real): (n: Vector2d)
    requires IsLength(v, len)
    ensures GetFrom(n) == Point2d(0.0, 0.0)
    ensures n.x1 * len == Dy(v) && n.y1 * len == Dx(v)
  {
    Div(Vector2d(0.0, 0.0, v.y1 - v.y0, v.x1 - v.x0), len)
  }

  /**
   * The dot product of `v` with the source's right normal is `2 dx dy / len`,
   * so that normal is perpendicular to `v` only when `v` is axis-parallel.
   */
  lemma NormalRightAsWrittenSkew(v: Vector2d, len: real)
    requires IsLength(v, len)
    ensures Dot(v, NormalRightAsWritten(v, len)) == 2.0 * Dx(v) * Dy(v) / len
    ensures Dot(v, NormalRightAsWritten(v, len)) == 0.0 <==> Dx(v) * Dy(v) == 0.0
  {
    var n := NormalRightAsWritten(v, len);
    assert Dot(v, n) == (Dx(v) * Dy(v) + Dy(v) * Dx(v)) / len;
  }

  /** The vector from (0, 0) to (3, 4) has length 5. */
  lemma ThreeFourFive()
    ensures IsLength(Vector2d(0.0, 0.0, 3.0, 4.0), 5.0)
  {
    assert LengthSquared(Vector2d(0.0, 0.0, 3.0, 4.0)) == 25.0;
  }

  /**
   * For the vector from (0, 0) to (3, 4), of length 5, the source's right
   * normal has dot product 24/5 with it, not zero.
   */
  lemma NormalRightAsWrittenNotPerpendicular()
    ensures IsLength(Vector2d(0.0, 0.0, 3.0, 4.0), 5.0)
    ensures Dot(Vector2d(0.0, 0.0, 3.0, 4.0), NormalRightAsWritten(Vector2d(0.0, 0.0, 3.0, 4.0), 5.0)) == 4.8
  {
    ThreeFourFive();
    var n := NormalRightAsWritten(Vector2d(0.0, 0.0, 3.0, 4.0), 5.0);
    assert n == Vector2d(0.0, 0.0, 0.8, 0.6);
  }

  /**
   * The evidently intended right normal: `(dy, -dx)` divided by the length.
   * It is perpendicular to `v`, has length one, and is the left normal
   * reversed.
   */
  function NormalRight(v: Vector2d, len: real): (n: Vector2d)
    requires IsLength(v, len)
    ensures GetFrom(n) == Point2d(0.0, 0.0)
    ensures Dot(v, n) == 0.0
    ensures LengthSquared(n) == 1.0
    ensures GetTo(n) == Point2d(-GetTo(NormalLeft(v, len)).x, -GetTo(NormalLeft(v, len)).y)
  {
    var n := Div(Vector2d(0.0, 0.0, v.y1 - v.y0, -(v.x1 - v.x0)), len);
    ScaledSquare(n.x1, v.y1 - v.y0, len);
    ScaledSquare(n.y1, -(v.x1 - v.x0), len);
    UnitWhenScaled(n.x1, n.y1, v.y1 - v.y0, -(v.x1 - v.x0), len);
    assert Dot(v, n) == (Dx(v) * Dy(v) + Dy(v) * (-Dx(v))) / len;
    n
  }
}
