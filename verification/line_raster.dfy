/**
 * The incremental line rasteriser `Line::draw` (src/line.rs:21-96), on the
 * truncated `u32` endpoint coordinates. With whole-number endpoints the
 * source's `f32` deltas and error term hold whole numbers, so they are `int`s
 * here. The result is the sequence of pixels handed to `put_pixel`, in order.
 */
module LineRaster {

  import opened Geometry

  /** The pixels `(x, y)` for `x` in `left..=right`, left to right. */
  predicate IsRow(pixels: seq<Pixel>, left: nat, right: nat, y: nat)
  {
    && |pixels| == right - left + 1
    && forall i | 0 <= i < |pixels| :: pixels[i] == Pixel(left + i, y)
  }

  /** The pixels `(x, y)` for `y` in `bottom..=top`, bottom to top. */
  predicate IsColumn(pixels: seq<Pixel>, x: nat, bottom: nat, top: nat)
  {
    && |pixels| == top - bottom + 1
    && forall i | 0 <= i < |pixels| :: pixels[i] == Pixel(x, bottom + i)
  }

  /** Two pixels touch: they differ by at most one in each coordinate. */
  predicate Adjacent(p: Pixel, q: Pixel)
  {
    -1 <= p.x - q.x <= 1 && -1 <= p.y - q.y <= 1
  }

  /** Consecutive pixels touch (8-connectivity). */
  predicate Connected(pixels: seq<Pixel>)
  {
    forall i | 0 <= i < |pixels| - 1 :: Adjacent(pixels[i], pixels[i + 1])
  }

  /** Every pixel lies in the bounding box of the two endpoints. */
  predicate InBox(pixels: seq<Pixel>, fx: nat, fy: nat, lx: nat, ly: nat)
  {
    forall i | 0 <= i < |pixels| ::
      && Min(fx, lx) <= pixels[i].x <= Max(fx, lx)
      && Min(fy, ly) <= pixels[i].y <= Max(fy, ly)
  }

  function Min(a: nat, b: nat): nat
  {
    if a < b then a else b
  }

  function Max(a: nat, b: nat): nat
  {
    if a < b then b else a
  }

  function Abs(a: int): nat
  {
    if a < 0 then -a else a
  }

  /**
   * The x-major walks: pixel `i` has x `fx + i`, and y moves from `fy` by 0
   * or 1 per pixel in direction `dir`.
   */
  predicate XMajor(pixels: seq<Pixel>, fx: nat, fy: nat, dir: int)
  {
    && (|pixels| > 0 ==> pixels[0] == Pixel(fx, fy))
    && (forall i | 0 <= i < |pixels| :: pixels[i].x == fx + i)
    && (forall i | 0 <= i < |pixels| - 1 ::
          pixels[i + 1].y == pixels[i].y || pixels[i + 1].y == pixels[i].y + dir)
  }

  /**
   * The y-major walks: pixel `i` has y `fy + i` (rising) or `fy - i`
   * (falling), and x rises from `fx` by 0 or 1 per pixel.
   */
  predicate YMajor(pixels: seq<Pixel>, fx: nat, fy: nat, rising: bool)
  {
    && (|pixels| > 0 ==> pixels[0] == Pixel(fx, fy))
    && (forall i | 0 <= i < |pixels| :: pixels[i].y == if rising then fy + i else fy - i)
    && (forall i | 0 <= i < |pixels| - 1 ::
          pixels[i + 1].x == pixels[i].x || pixels[i + 1].x == pixels[i].x + 1)
  }

  lemma XMajorAppend(pixels: seq<Pixel>, fx: nat, fy: nat, dir: int, p: Pixel)
    requires XMajor(pixels, fx, fy, dir)
    requires p.x == fx + |pixels|
    requires |pixels| == 0 ==> p == Pixel(fx, fy)
    requires |pixels| > 0 ==> p.y == pixels[|pixels| - 1].y || p.y == pixels[|pixels| - 1].y + dir
    ensures XMajor(pixels + [p], fx, fy, dir)
  {
  }

  lemma YMajorAppend(pixels: seq<Pixel>, fx: nat, fy: nat, rising: bool, p: Pixel)
    requires YMajor(pixels, fx, fy, rising)
    requires p.y == if rising then fy + |pixels| else fy - |pixels|
    requires |pixels| == 0 ==> p == Pixel(fx, fy)
    requires |pixels| > 0 ==> p.x == pixels[|pixels| - 1].x || p.x == pixels[|pixels| - 1].x + 1
    ensures YMajor(pixels + [p], fx, fy, rising)
  {
  }

  lemma InBoxAppend(pixels: seq<Pixel>, fx: nat, fy: nat, lx: nat, ly: nat, p: Pixel)
    requires InBox(pixels, fx, fy, lx, ly) && InBox([p], fx, fy, lx, ly)
    ensures InBox(pixels + [p], fx, fy, lx, ly)
  {
  }

  /**
   * The slope test of the source (src/line.rs:29, 45, 57, 69) on whole
   * numbers: for `dx > 0`, `dy / dx` compares with 1, 0 and -1 as `dy` does
   * with `dx`, 0 and `-dx`.
   */
  lemma SlopeClass(dx: int, dy: int)
    requires dx > 0
    ensures (dy as real) / (dx as real) > 1.0 <==> dy > dx
    ensures (dy as real) / (dx as real) > 0.0 <==> dy > 0
    ensures (dy as real) / (dx as real) < -1.0 <==> dy < -dx
  {
    var s, x := (dy as real) / (dx as real), dx as real;
    assert s * x == dy as real;
    RealScale(s, 1.0, x);
    RealScale(s, 0.0, x);
    RealScale(s, -1.0, x);
  }

  /** Multiplying by a positive number keeps the order of two reals. */
  lemma RealScale(a: real, b: real, x: real)
    requires x > 0.0
    ensures a > b <==> a * x > b * x
    ensures a < b <==> a * x < b * x
  {
    if a > b {
      assert (a - b) * x > 0.0;
    }
    if a < b {
      assert (b - a) * x > 0.0;
    }
  }

  /** `m * c < (lim + 1) * c` with `c > 0` bounds `m` by `lim`. */
  lemma BelowNext(m: int, c: int, lim: int)
    requires c > 0 && m * c < (lim + 1) * c
    ensures m <= lim
  {
  }

  /**
   * Slope above 1 (src/line.rs:45-56): `last_y - first_y` pixels, y rising
   * by one each time and x by 0 or 1, all inside the endpoints' box.
   */
  method WalkSteepUp(fx: nat, fy: nat, lx: nat, ly: nat) returns (pixels: seq<Pixel>)
    requires fx < lx && ly - fy > lx - fx
    ensures |pixels| == ly - fy
    ensures YMajor(pixels, fx, fy, true)
    ensures InBox(pixels, fx, fy, lx, ly)
  {
    var dx, dy := lx - fx, ly - fy;
    var d := 2 * dy - dx;
    var x, y := fx, fy;
    pixels := [];
    ghost var m := 0;
    while |pixels| < dy
      invariant |pixels| <= dy && y == fy + |pixels| && x == fx + m && 0 <= m <= dx
      invariant SteepUpError(dx, dy, |pixels|, m, d)
      invariant YMajor(pixels, fx, fy, true)
      invariant |pixels| > 0 ==> pixels[|pixels| - 1].x == x || pixels[|pixels| - 1].x + 1 == x
      invariant |pixels| == 0 ==> x == fx
      invariant InBox(pixels, fx, fy, lx, ly)
    {
      ghost var k := |pixels|;
      YMajorAppend(pixels, fx, fy, true, Pixel(x, y));
      InBoxAppend(pixels, fx, fy, lx, ly, Pixel(x, y));
      pixels := pixels + [Pixel(x, y)];
      if d >= 0 {
        SteepUpKeep(dx, dy, k, m, d);
        d := d - 2 * dx;
      } else {
        SteepUpMove(dx, dy, k, m, d);
        x := x + 1;
        m := m + 1;
        d := d + 2 * dy - 2 * dx;
      }
      y := y + 1;
    }
  }

  /**
   * The error term of the steep rising walk after `k` rows with `m` steps in
   * x, and the bound on it that the update keeps.
   */
  ghost predicate SteepUpError(dx: int, dy: int, k: int, m: int, d: int)
  {
    d == 2 * dy - dx - 2 * dx * k + 2 * dy * m && d < 2 * dy
  }

  lemma SteepUpKeep(dx: int, dy: int, k: int, m: int, d: int)
    requires 0 < dx < dy && SteepUpError(dx, dy, k, m, d) && d >= 0
    ensures SteepUpError(dx, dy, k + 1, m, d - 2 * dx)
  {
  }

  lemma SteepUpMove(dx: int, dy: int, k: int, m: int, d: int)
    requires 0 < dx < dy && 0 <= k < dy && SteepUpError(dx, dy, k, m, d) && d < 0
    ensures SteepUpError(dx, dy, k + 1, m + 1, d + 2 * dy - 2 * dx)
    ensures m + 1 <= dx
  {
    SteepUpBound(dx, dy, k + 1, m + 1, d + 2 * dy - 2 * dx);
  }

  /** With `d < 2 dy` the error term allows at most `dx` steps in x over `dy` rows. */
  lemma SteepUpBound(dx: int, dy: int, k: int, m: int, d: int)
    requires 0 < dx < dy && 0 <= k <= dy
    requires SteepUpError(dx, dy, k, m, d)
    ensures m <= dx
  {
    assert 2 * dy * m < dx * (2 * k + 1);
    assert dx * (2 * k + 1) <= dx * (2 * dy + 1);
    BelowNext(m, 2 * dy, dx);
  }

  /**
   * Slope in `(0, 1]` (src/line.rs:57-68): `last_x - first_x` pixels, x
   * rising by one each time and y by 0 or 1, all inside the endpoints' box.
   */
  method WalkShallowUp(fx: nat, fy: nat, lx: nat, ly: nat) returns (pixels: seq<Pixel>)
    requires fx < lx && fy < ly && ly - fy <= lx - fx
    ensures |pixels| == lx - fx
    ensures XMajor(pixels, fx, fy, 1)
    ensures InBox(pixels, fx, fy, lx, ly)
  {
    var dx, dy := lx - fx, ly - fy;
    var d := 2 * dy - dx;
    var x, y := fx, fy;
    pixels := [];
    ghost var m := 0;
    while |pixels| < dx
      invariant |pixels| <= dx && x == fx + |pixels| && y == fy + m && 0 <= m <= dy
      invariant ShallowUpError(dx, dy, |pixels|, m, d)
      invariant XMajor(pixels, fx, fy, 1)
      invariant |pixels| > 0 ==> pixels[|pixels| - 1].y == y || pixels[|pixels| - 1].y + 1 == y
      invariant |pixels| == 0 ==> y == fy
      invariant InBox(pixels, fx, fy, lx, ly)
    {
      ghost var k := |pixels|;
      XMajorAppend(pixels, fx, fy, 1, Pixel(x, y));
      InBoxAppend(pixels, fx, fy, lx, ly, Pixel(x, y));
      pixels := pixels + [Pixel(x, y)];
      if d >= 0 {
        ShallowUpMove(dx, dy, k, m, d);
        y := y + 1;
        m := m + 1;
        d := d + 2 * dy - 2 * dx;
      } else {
        ShallowUpKeep(dx, dy, k, m, d);
        d := d + 2 * dy;
      }
      x := x + 1;
    }
  }

  /** The error term of the shallow rising walk after `k` columns with `m` steps in y. */
  ghost predicate ShallowUpError(dx: int, dy: int, k: int, m: int, d: int)
  {
    d == 2 * dy - dx + 2 * dy * k - 2 * dx * m && d >= 2 * dy - 2 * dx
  }

  lemma ShallowUpKeep(dx: int, dy: int, k: int, m: int, d: int)
    requires 0 < dy <= dx && ShallowUpError(dx, dy, k, m, d) && d < 0
    ensures ShallowUpError(dx, dy, k + 1, m, d + 2 * dy)
  {
  }

  lemma ShallowUpMove(dx: int, dy: int, k: int, m: int, d: int)
    requires 0 < dy <= dx && 0 <= k < dx && ShallowUpError(dx, dy, k, m, d) && d >= 0
    ensures ShallowUpError(dx, dy, k + 1, m + 1, d + 2 * dy - 2 * dx)
    ensures m + 1 <= dy
  {
    ShallowUpBound(dx, dy, k + 1, m + 1, d + 2 * dy - 2 * dx);
  }

  /** With `d >= 2 dy - 2 dx` the error term allows at most `dy` steps in y over `dx` columns. */
  lemma ShallowUpBound(dx: int, dy: int, k: int, m: int, d: int)
    requires 0 < dy <= dx && 0 <= k <= dx
    requires ShallowUpError(dx, dy, k, m, d)
    ensures m <= dy
  {
    assert 2 * dx * m <= 2 * dy * k + dx;
    assert 2 * dy * k <= 2 * dy * dx;
    BelowNext(m, 2 * dx, dy);
  }

  /**
   * Slope below -1 (src/line.rs:69-80): `first_y - last_y` pixels, y
   * falling by one each time and x rising by 0 or 1, all inside the
   * endpoints' box.
   */
  method WalkSteepDown(fx: nat, fy: nat, lx: nat, ly: nat) returns (pixels: seq<Pixel>)
    requires fx < lx && ly < fy && fy - ly > lx - fx
    ensures |pixels| == fy - ly
    ensures YMajor(pixels, fx, fy, false)
    ensures InBox(pixels, fx, fy, lx, ly)
  {
    var dx, dy := lx - fx, ly - fy;
    var d := dy + 2 * dx;
    var x, y := fx, fy;
    pixels := [];
    ghost var m := 0;
    while |pixels| < fy - ly
      invariant |pixels| <= fy - ly && y == fy - |pixels| && x == fx + m && 0 <= m <= dx
      invariant SteepDownError(dx, -dy, |pixels|, m, d)
      invariant YMajor(pixels, fx, fy, false)
      invariant |pixels| > 0 ==> pixels[|pixels| - 1].x == x || pixels[|pixels| - 1].x + 1 == x
      invariant |pixels| == 0 ==> x == fx
      invariant InBox(pixels, fx, fy, lx, ly)
    {
      ghost var k := |pixels|;
      YMajorAppend(pixels, fx, fy, false, Pixel(x, y));
      InBoxAppend(pixels, fx, fy, lx, ly, Pixel(x, y));
      pixels := pixels + [Pixel(x, y)];
      if d >= 0 {
        SteepDownMove(dx, -dy, k, m, d);
        x := x + 1;
        m := m + 1;
        d := d + 2 * dy + 2 * dx;
      } else {
        SteepDownKeep(dx, -dy, k, m, d);
        d := d + 2 * dx;
      }
      y := y - 1;
    }
  }

  /**
   * The error term of the steep falling walk after `k` rows with `m` steps
   * in x, where `a` is the fall `first_y - last_y`.
   */
  ghost predicate SteepDownError(dx: int, a: int, k: int, m: int, d: int)
  {
    d == 2 * dx - a + 2 * dx * k - 2 * a * m && d >= 2 * dx - 2 * a
  }

  lemma SteepDownKeep(dx: int, a: int, k: int, m: int, d: int)
    requires 0 < dx < a && SteepDownError(dx, a, k, m, d) && d < 0
    ensures SteepDownError(dx, a, k + 1, m, d + 2 * dx)
  {
  }

  lemma SteepDownMove(dx: int, a: int, k: int, m: int, d: int)
    requires 0 < dx < a && 0 <= k < a && SteepDownError(dx, a, k, m, d) && d >= 0
    ensures SteepDownError(dx, a, k + 1, m + 1, d - 2 * a + 2 * dx)
    ensures m + 1 <= dx
  {
    SteepDownBound(dx, a, k + 1, m + 1, d - 2 * a + 2 * dx);
  }

  /** With `d >= 2 dx - 2 a` the error term allows at most `dx` steps in x over `a` rows. */
  lemma SteepDownBound(dx: int, a: int, k: int, m: int, d: int)
    requires 0 < dx < a && 0 <= k <= a
    requires SteepDownError(dx, a, k, m, d)
    ensures m <= dx
  {
    assert 2 * a * m <= 2 * dx * k + a;
    assert 2 * dx * k <= 2 * dx * a;
    BelowNext(m, 2 * a, dx);
  }

  /**
   * Slope in `[-1, 0)` (src/line.rs:81-93): `last_x - first_x` pixels, x
   * rising by one each time and y falling by 0 or 1, all inside the
   * endpoints' box; in particular y never drops below `last_y`, so the `u32`
   * decrement cannot wrap.
   */
  method WalkShallowDown(fx: nat, fy: nat, lx: nat, ly: nat) returns (pixels: seq<Pixel>)
    requires fx < lx && ly < fy && fy - ly <= lx - fx
    ensures |pixels| == lx - fx
    ensures XMajor(pixels, fx, fy, -1)
    ensures InBox(pixels, fx, fy, lx, ly)
  {
    var dx, dy := lx - fx, ly - fy;
    var d := 2 * dy + dx;
    var x, y := fx, fy;
    pixels := [];
    ghost var m := 0;
    while |pixels| < dx
      invariant |pixels| <= dx && x == fx + |pixels| && y == fy - m && 0 <= m <= -dy
      invariant ShallowDownError(dx, -dy, |pixels|, m, d)
      invariant XMajor(pixels, fx, fy, -1)
      invariant |pixels| > 0 ==> pixels[|pixels| - 1].y == y || pixels[|pixels| - 1].y - 1 == y
      invariant |pixels| == 0 ==> y == fy
      invariant InBox(pixels, fx, fy, lx, ly)
    {
      ghost var k := |pixels|;
      XMajorAppend(pixels, fx, fy, -1, Pixel(x, y));
      InBoxAppend(pixels, fx, fy, lx, ly, Pixel(x, y));
      pixels := pixels + [Pixel(x, y)];
      if d >= 0 {
        ShallowDownKeep(dx, -dy, k, m, d);
        d := d + 2 * dy;
      } else {
        ShallowDownMove(dx, -dy, k, m, d);
        y := y - 1;
        m := m + 1;
        d := d + 2 * dx;
      }
      x := x + 1;
    }
  }

  /**
   * The error term of the shallow falling walk after `k` columns with `m`
   * steps in y, where `a` is the fall `first_y - last_y`.
   */
  ghost predicate ShallowDownError(dx: int, a: int, k: int, m: int, d: int)
  {
    d == dx - 2 * a * (k + 1) + 2 * (a + dx) * m && d < 2 * dx
  }

  lemma ShallowDownKeep(dx: int, a: int, k: int, m: int, d: int)
    requires 0 < a <= dx && ShallowDownError(dx, a, k, m, d) && d >= 0
    ensures ShallowDownError(dx, a, k + 1, m, d - 2 * a)
  {
  }

  lemma ShallowDownMove(dx: int, a: int, k: int, m: int, d: int)
    requires 0 < a <= dx && 0 <= k < dx && ShallowDownError(dx, a, k, m, d) && d < 0
    ensures ShallowDownError(dx, a, k + 1, m + 1, d + 2 * dx)
    ensures m + 1 <= a
  {
    ShallowDownBound(dx, a, k + 1, m + 1, d + 2 * dx);
  }

  /** With `d < 2 dx` the error term allows at most `a` steps in y over `dx` columns. */
  lemma ShallowDownBound(dx: int, a: int, k: int, m: int, d: int)
    requires 0 < a <= dx && 0 <= k <= dx
    requires ShallowDownError(dx, a, k, m, d)
    ensures m <= a
  {
    assert 2 * (a + dx) * m < dx + 2 * a * (k + 1);
    assert 2 * a * (k + 1) <= 2 * a * (dx + 1);
    assert dx + 2 * a * (dx + 1) < 2 * (a + dx) * (a + 1);
    BelowNext(m, 2 * (a + dx), a);
  }

  /** The pixels `(x, y)` for `x` in `left..right + 1` (src/line.rs:35-37). */
  method HorizontalRun(left: nat, right: nat, y: nat) returns (pixels: seq<Pixel>)
    requires left <= right
    ensures IsRow(pixels, left, right, y)
  {
    pixels := [];
    var x := left;
    while x < right + 1
      invariant left <= x <= right + 1 && |pixels| == x - left
      invariant forall i | 0 <= i < |pixels| :: pixels[i] == Pixel(left + i, y)
    {
      pixels := pixels + [Pixel(x, y)];
      x := x + 1;
    }
  }

  /** The pixels `(x, y)` for `y` in `bottom..top + 1` (src/line.rs:41-43). */
  method VerticalRun(x: nat, bottom: nat, top: nat) returns (pixels: seq<Pixel>)
    requires bottom <= top
    ensures IsColumn(pixels, x, bottom, top)
  {
    pixels := [];
    var y := bottom;
    while y < top + 1
      invariant bottom <= y <= top + 1 && |pixels| == y - bottom
      invariant forall i | 0 <= i < |pixels| :: pixels[i] == Pixel(x, bottom + i)
    {
      pixels := pixels + [Pixel(x, y)];
      y := y + 1;
    }
  }

  /** An x-major walk moves to a touching pixel each time. */
  lemma XMajorConnected(pixels: seq<Pixel>, fx: nat, fy: nat, dir: int)
    requires dir == 1 || dir == -1
    requires XMajor(pixels, fx, fy, dir)
    ensures Connected(pixels)
  {
  }

  /** A y-major walk moves to a touching pixel each time. */
  lemma YMajorConnected(pixels: seq<Pixel>, fx: nat, fy: nat, rising: bool)
    requires YMajor(pixels, fx, fy, rising)
    ensures Connected(pixels)
  {
  }

  /**
   * What `Line::draw` writes for the endpoints `(fx, fy)` and `(lx, ly)`: a
   * whole row or column, endpoints included, when they share a coordinate;
   * otherwise `max(|dx|, |dy|)` pixels starting at the first endpoint, each
   * touching the next, inside the bounding box, never the last endpoint, and
   * walking one step per pixel along the major axis of the slope's octant.
   */
  predicate Rasterised(fx: nat, fy: nat, lx: nat, ly: nat, pixels: seq<Pixel>)
  {
    && (fy == ly ==> IsRow(pixels, Min(fx, lx), Max(fx, lx), fy))
    && (fy != ly && fx == lx ==> IsColumn(pixels, fx, Min(fy, ly), Max(fy, ly)))
    && (fy != ly && fx != lx ==>
          && |pixels| == Max(Abs(lx - fx), Abs(ly - fy))
          && pixels[0] == Pixel(fx, fy)
          && Connected(pixels)
          && InBox(pixels, fx, fy, lx, ly)
          && Pixel(lx, ly) !in pixels)
    && (fx < lx && ly - fy > lx - fx ==> YMajor(pixels, fx, fy, true))
    && (fx < lx && 0 < ly - fy <= lx - fx ==> XMajor(pixels, fx, fy, 1))
    && (fx < lx && fy - ly > lx - fx ==> YMajor(pixels, fx, fy, false))
    && (fx < lx && 0 < fy - ly <= lx - fx ==> XMajor(pixels, fx, fy, -1))
  }

  /**
   * `Line::draw` (src/line.rs:21-96) on the truncated endpoints. The `u32`
   * loop bounds of every slope branch underflow unless `fx < lx`, hence the
   * precondition.
   */
  method DrawLine(fx: nat, fy: nat, lx: nat, ly: nat) returns (pixels: seq<Pixel>)
    requires fy == ly || fx == lx || fx < lx
    ensures Rasterised(fx, fy, lx, ly, pixels)
  {
    if fy == ly {
      var left := if lx > fx then fx else lx;
      var right := if lx > fx then lx else fx;
      pixels := HorizontalRun(left, right, fy);
    } else if fx == lx {
      var bottom := if ly > fy then fy else ly;
      var top := if ly > fy then ly else fy;
      pixels := VerticalRun(fx, bottom, top);
    } else {
      var dx, dy := lx - fx, ly - fy;
      var slope := (dy as real) / (dx as real);
      SlopeClass(dx, dy);
      if slope > 1.0 {
        pixels := WalkSteepUp(fx, fy, lx, ly);
        YMajorConnected(pixels, fx, fy, true);
        assert forall i | 0 <= i < |pixels| :: pixels[i].y < ly;
      } else if slope > 0.0 {
        pixels := WalkShallowUp(fx, fy, lx, ly);
        XMajorConnected(pixels, fx, fy, 1);
      } else if slope < -1.0 {
        pixels := WalkSteepDown(fx, fy, lx, ly);
        YMajorConnected(pixels, fx, fy, false);
        assert forall i | 0 <= i < |pixels| :: pixels[i].y > ly;
      } else {
        pixels := WalkShallowDown(fx, fy, lx, ly);
        XMajorConnected(pixels, fx, fy, -1);
      }
    }
  }
}
