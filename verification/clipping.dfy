/**
 * Cohen–Sutherland clipping of a line against an axis-aligned rectangle
 * (src/clipping.rs). Coordinates are exact reals.
 */
module Clipping {

  import opened Wrappers
  import opened Geometry

  /** The clip rectangle, with its fields in the source's declaration order. */
  datatype ClippingRectangle = ClippingRectangle(yMin: real, yMax: real, xMin: real, xMax: real)

  /**
   * Both intervals are non-empty. The constructor does not check this; on a
   * rectangle without it no point is inside and the clip loop rejects.
   */
  predicate ValidRectangle(r: ClippingRectangle)
  {
    r.xMin <= r.xMax && r.yMin <= r.yMax
  }

  const TOP: bv8 := 0x1
  const BOTTOM: bv8 := 0x2
  const RIGHT: bv8 := 0x4
  const LEFT: bv8 := 0x8

  /** The four boundary bits. */
  predicate IsBoundary(b: bv8)
  {
    b == TOP || b == BOTTOM || b == RIGHT || b == LEFT
  }

  /** `p` lies in the closed rectangle. */
  predicate Inside(p: Point2d, r: ClippingRectangle)
  {
    r.xMin <= p.x <= r.xMax && r.yMin <= p.y <= r.yMax
  }

  /**
   * How far `p` lies on the outer side of boundary `b`: positive exactly when
   * `p` violates that boundary, zero when it lies on it.
   */
  function Excess(p: Point2d, r: ClippingRectangle, b: bv8): real
  {
    if b == TOP then p.y - r.yMax
    else if b == BOTTOM then r.yMin - p.y
    else if b == RIGHT then p.x - r.xMax
    else r.xMin - p.x
  }

  predicate Beyond(p: Point2d, r: ClippingRectangle, b: bv8)
  {
    Excess(p, r, b) > 0.0
  }

  /** The region code of `p` (clipping.rs `compute_out_code`). */
  function OutCode(p: Point2d, r: ClippingRectangle): (c: bv8)
    ensures c == 0 <==> Inside(p, r)
    ensures c & (TOP | BOTTOM) != TOP | BOTTOM
    ensures c & (RIGHT | LEFT) != RIGHT | LEFT
    ensures c & 0xF0 == 0
    ensures ValidRectangle(r) ==>
              forall b | IsBoundary(b) :: c & b != 0 <==> Beyond(p, r, b)
  {
    var vertical: bv8 := if p.y > r.yMax then TOP else if p.y < r.yMin then BOTTOM else 0;
    var horizontal: bv8 := if p.x > r.xMax then RIGHT else if p.x < r.xMin then LEFT else 0;
    vertical | horizontal
  }

  /**
   * The boundary the clip loop acts on for a non-zero code: the first set bit
   * in the order TOP, BOTTOM, RIGHT, LEFT (LEFT is the fall-through branch).
   */
  function Chosen(c: bv8): (b: bv8)
    ensures IsBoundary(b)
    ensures c & 0x0F != 0 ==> c & b != 0
    ensures b != TOP ==> c & TOP == 0
    ensures b == RIGHT || b == LEFT ==> c & BOTTOM == 0
    ensures b == LEFT ==> c & RIGHT == 0
  {
    if c & TOP != 0 then TOP
    else if c & BOTTOM != 0 then BOTTOM
    else if c & RIGHT != 0 then RIGHT
    else LEFT
  }

  lemma ChosenIsSet(c: bv8)
    requires c != 0 && c & 0xF0 == 0
    ensures c & Chosen(c) != 0
  {
  }

  /** How `Excess` changes per unit of the line parameter. */
  function Rate(l: Line, b: bv8): real
  {
    if b == TOP then l.last.y - l.first.y
    else if b == BOTTOM then l.first.y - l.last.y
    else if b == RIGHT then l.last.x - l.first.x
    else l.first.x - l.last.x
  }

  /** Along a line, the excess over a boundary is an affine function of the parameter. */
  lemma ExcessAlong(l: Line, r: ClippingRectangle, b: bv8, s: real)
    ensures Excess(PointAt(l, s), r, b) == Excess(l.first, r, b) + s * Rate(l, b)
  {
  }

  /** The parameter at which the line through `l` meets boundary `b`. */
  function BoundaryParam(l: Line, r: ClippingRectangle, b: bv8): real
    requires Rate(l, b) != 0.0
  {
    var f := l.first;
    if b == TOP then (r.yMax - f.y) / (l.last.y - f.y)
    else if b == BOTTOM then (r.yMin - f.y) / (l.last.y - f.y)
    else if b == RIGHT then (r.xMax - f.x) / (l.last.x - f.x)
    else (r.xMin - f.x) / (l.last.x - f.x)
  }

  /**
   * On the line `(f0 + t * d0, f1 + t * d1)` the parameter where the first
   * coordinate equals `c`, and the second coordinate there in the source's form.
   */
  lemma AxisCrossing(f0: real, d0: real, f1: real, d1: real, c: real)
    requires d0 != 0.0
    ensures f0 + ((c - f0) / d0) * d0 == c
    ensures f1 + ((c - f0) / d0) * d1 == f1 + d1 * (c - f0) / d0
  {
  }

  /**
   * The intersection of the line through `line` with the boundary selected by
   * `outCode` (clipping.rs:51-65). The divisions need the matching coordinate
   * difference to be non-zero.
   */
  function Intersection(line: Line, r: ClippingRectangle, outCode: bv8): (p: Point2d)
    requires Chosen(outCode) == TOP || Chosen(outCode) == BOTTOM ==> line.last.y != line.first.y
    requires Chosen(outCode) == RIGHT || Chosen(outCode) == LEFT ==> line.last.x != line.first.x
    ensures Rate(line, Chosen(outCode)) != 0.0
    ensures p == PointAt(line, BoundaryParam(line, r, Chosen(outCode)))
    ensures Excess(p, r, Chosen(outCode)) == 0.0
  {
    var b := Chosen(outCode);
    var p := BoundaryPoint(line, r, b);
    BoundaryPointAt(line, r, b);
    p
  }

  /** The source's formula for the point where the line meets boundary `b`. */
  function BoundaryPoint(line: Line, r: ClippingRectangle, b: bv8): Point2d
    requires b == TOP || b == BOTTOM ==> line.last.y != line.first.y
    requires b != TOP && b != BOTTOM ==> line.last.x != line.first.x
  {
    var f, l := line.first, line.last;
    if b == TOP then
      Point2d(f.x + (l.x - f.x) * (r.yMax - f.y) / (l.y - f.y), r.yMax)
    else if b == BOTTOM then
      Point2d(f.x + (l.x - f.x) * (r.yMin - f.y) / (l.y - f.y), r.yMin)
    else if b == RIGHT then
      Point2d(r.xMax, f.y + (l.y - f.y) * (r.xMax - f.x) / (l.x - f.x))
    else
      Point2d(r.xMin, f.y + (l.y - f.y) * (r.xMin - f.x) / (l.x - f.x))
  }

  lemma BoundaryPointAt(line: Line, r: ClippingRectangle, b: bv8)
    requires IsBoundary(b)
    requires b == TOP || b == BOTTOM ==> line.last.y != line.first.y
    requires b != TOP && b != BOTTOM ==> line.last.x != line.first.x
    ensures Rate(line, b) != 0.0
    ensures BoundaryPoint(line, r, b) == PointAt(line, BoundaryParam(line, r, b))
  {
    if b == TOP {
      TopCrossing(line, r);
    } else if b == BOTTOM {
      BottomCrossing(line, r);
    } else if b == RIGHT {
      RightCrossing(line, r);
    } else {
      LeftCrossing(line, r);
    }
  }

  lemma TopCrossing(line: Line, r: ClippingRectangle)
    requires line.last.y != line.first.y
    ensures BoundaryPoint(line, r, TOP) == PointAt(line, BoundaryParam(line, r, TOP))
  {
    HorizontalCrossing(line, r.yMax);
  }

  lemma BottomCrossing(line: Line, r: ClippingRectangle)
    requires line.last.y != line.first.y
    ensures BoundaryPoint(line, r, BOTTOM) == PointAt(line, BoundaryParam(line, r, BOTTOM))
  {
    HorizontalCrossing(line, r.yMin);
  }

  lemma RightCrossing(line: Line, r: ClippingRectangle)
    requires line.last.x != line.first.x
    ensures BoundaryPoint(line, r, RIGHT) == PointAt(line, BoundaryParam(line, r, RIGHT))
  {
    VerticalCrossing(line, r.xMax);
  }

  lemma LeftCrossing(line: Line, r: ClippingRectangle)
    requires line.last.x != line.first.x
    ensures BoundaryPoint(line, r, LEFT) == PointAt(line, BoundaryParam(line, r, LEFT))
  {
    VerticalCrossing(line, r.xMin);
  }

  /** Where the line through `line` meets the horizontal line `y == c`. */
  lemma HorizontalCrossing(line: Line, c: real)
    requires line.last.y != line.first.y
    ensures var f, l := line.first, line.last;
            PointAt(line, (c - f.y) / (l.y - f.y)) == Point2d(f.x + (l.x - f.x) * (c - f.y) / (l.y - f.y), c)
  {
    var f, l := line.first, line.last;
    AxisCrossing(f.y, l.y - f.y, f.x, l.x - f.x, c);
  }

  /** Where the line through `line` meets the vertical line `x == c`. */
  lemma VerticalCrossing(line: Line, c: real)
    requires line.last.x != line.first.x
    ensures var f, l := line.first, line.last;
            PointAt(line, (c - f.x) / (l.x - f.x)) == Point2d(c, f.y + (l.y - f.y) * (c - f.x) / (l.x - f.x))
  {
    var f, l := line.first, line.last;
    AxisCrossing(f.x, l.x - f.x, f.y, l.y - f.y, c);
  }

  /** The state the clip loop carries: the current line and its endpoint codes. */
  datatype ClipState = ClipState(line: Line, firstCode: bv8, lastCode: bv8)

  /** The codes are those of the current endpoints. */
  predicate CodesOf(s: ClipState, r: ClippingRectangle)
  {
    s.firstCode == OutCode(s.line.first, r) && s.lastCode == OutCode(s.line.last, r)
  }

  /** The code the loop acts on: the first endpoint's when it is outside. */
  function ActiveCode(s: ClipState): bv8
  {
    if s.firstCode != 0 then s.firstCode else s.lastCode
  }

  /**
   * One pass through the loop's last branch (clipping.rs:50-73): the endpoint
   * whose code is chosen moves to the boundary the code selects, on the
   * original line `orig`.
   */
  function ClipStep(orig: Line, r: ClippingRectangle, s: ClipState): (s': ClipState)
    requires CodesOf(s, r)
    requires s.firstCode | s.lastCode != 0 && s.firstCode & s.lastCode == 0
    requires OnLine(orig, s.line.first) && OnLine(orig, s.line.last)
    // the division of the chosen branch is never by zero
    ensures Chosen(ActiveCode(s)) == TOP || Chosen(ActiveCode(s)) == BOTTOM ==> orig.last.y != orig.first.y
    ensures Chosen(ActiveCode(s)) == RIGHT || Chosen(ActiveCode(s)) == LEFT ==> orig.last.x != orig.first.x
    ensures CodesOf(s', r)
    // only the chosen endpoint moves; the two are never swapped
    ensures s.firstCode != 0 ==> s'.line.last == s.line.last
    ensures s.firstCode == 0 ==> s'.line.first == s.line.first
    // the moved endpoint lies on the chosen boundary and on the original line
    ensures var p := if s.firstCode != 0 then s'.line.first else s'.line.last;
            && Excess(p, r, Chosen(ActiveCode(s))) == 0.0
            && p == PointAt(orig, BoundaryParam(orig, r, Chosen(ActiveCode(s))))
    // the acted-on bit is clear in the moved endpoint's new code
    ensures s.firstCode != 0 ==> s'.firstCode & Chosen(s.firstCode) == 0
    ensures s.firstCode == 0 ==> s'.lastCode & Chosen(s.lastCode) == 0
  {
    var outCode := ActiveCode(s);
    ChosenDivisorNonZero(orig, r, s);
    var p := Intersection(orig, r, outCode);
    if outCode == s.firstCode then
      ClipState(Line(p, s.line.last), OutCode(p, r), s.lastCode)
    else
      ClipState(Line(s.line.first, p), s.firstCode, OutCode(p, r))
  }

  /**
   * The endpoint being moved violates the chosen boundary and the other one
   * does not, so the two differ in the coordinate the division is over.
   */
  lemma ChosenDivisorNonZero(orig: Line, r: ClippingRectangle, s: ClipState)
    requires CodesOf(s, r)
    requires s.firstCode | s.lastCode != 0 && s.firstCode & s.lastCode == 0
    requires OnLine(orig, s.line.first) && OnLine(orig, s.line.last)
    ensures Chosen(ActiveCode(s)) == TOP || Chosen(ActiveCode(s)) == BOTTOM ==> orig.last.y != orig.first.y
    ensures Chosen(ActiveCode(s)) == RIGHT || Chosen(ActiveCode(s)) == LEFT ==> orig.last.x != orig.first.x
    ensures Rate(orig, Chosen(ActiveCode(s))) != 0.0
  {
    var b := Chosen(ActiveCode(s));
    var p, q := s.line.first, s.line.last;
    var f, l := orig.first, orig.last;
    if b == TOP || b == BOTTOM {
      assert p.y != q.y;
      if l.y == f.y && f != l {
        assert l.x - f.x != 0.0;
        ProductZero(p.y - f.y, l.x - f.x);
        ProductZero(q.y - f.y, l.x - f.x);
      }
    } else {
      assert p.x != q.x;
      if l.x == f.x && f != l {
        assert l.y - f.y != 0.0;
        ProductZero(p.x - f.x, l.y - f.y);
        ProductZero(q.x - f.x, l.y - f.y);
      }
    }
  }

  lemma ProductZero(a: real, d: real)
    requires d != 0.0 && a * d == 0.0
    ensures a == 0.0
  {
  }

  /** A point is inside exactly when it violates none of the four boundaries. */
  lemma InsideNoExcess(p: Point2d, r: ClippingRectangle)
    ensures Inside(p, r) <==>
              !Beyond(p, r, TOP) && !Beyond(p, r, BOTTOM) && !Beyond(p, r, RIGHT) && !Beyond(p, r, LEFT)
  {
  }

  /** Between two parameters an affine function stays between its end values. */
  lemma AffineBetween(a: real, d: real, t0: real, s: real, t1: real)
    requires t0 <= s <= t1
    ensures a + t0 * d <= a + s * d <= a + t1 * d || a + t1 * d <= a + s * d <= a + t0 * d
  {
    if d >= 0.0 {
      assert (s - t0) * d >= 0.0 && (t1 - s) * d >= 0.0;
    } else {
      assert (s - t0) * d <= 0.0 && (t1 - s) * d <= 0.0;
    }
  }

  /**
   * An affine function positive at `t0`, non-positive at `t1 >= t0` and zero
   * at `t` decreases, and its zero lies in `(t0, t1]`.
   */
  lemma AffineFallsTo(a: real, d: real, t0: real, t1: real, t: real)
    requires t0 <= t1 && a + t0 * d > 0.0 && a + t1 * d <= 0.0 && a + t * d == 0.0
    ensures d < 0.0 && t0 < t <= t1
  {
    assert (t1 - t0) * d < 0.0;
    assert (t - t0) * d < 0.0;
    assert (t1 - t) * d <= 0.0;
  }

  /**
   * An affine function non-positive at `t0`, positive at `t1 >= t0` and zero
   * at `t` increases, and its zero lies in `[t0, t1)`.
   */
  lemma AffineRisesFrom(a: real, d: real, t0: real, t1: real, t: real)
    requires t0 <= t1 && a + t0 * d <= 0.0 && a + t1 * d > 0.0 && a + t * d == 0.0
    ensures d > 0.0 && t0 <= t < t1
  {
    assert (t1 - t0) * d > 0.0;
    assert (t1 - t) * d > 0.0;
    assert (t - t0) * d >= 0.0;
  }

  /** A decreasing affine function is positive before its zero. */
  lemma AffinePositiveBefore(a: real, d: real, s: real, t: real)
    requires d < 0.0 && s < t && a + t * d == 0.0
    ensures a + s * d > 0.0
  {
    assert (t - s) * d < 0.0;
  }

  /** An increasing affine function is positive after its zero. */
  lemma AffinePositiveAfter(a: real, d: real, s: real, t: real)
    requires d > 0.0 && t < s && a + t * d == 0.0
    ensures a + s * d > 0.0
  {
    assert (s - t) * d > 0.0;
  }

  /** The meaning of one bit of a code, for a well-formed rectangle. */
  lemma CodeBit(p: Point2d, r: ClippingRectangle, b: bv8)
    requires ValidRectangle(r) && IsBoundary(b)
    ensures OutCode(p, r) & b != 0 <==> Beyond(p, r, b)
  {
  }

  /** Every parameter of `[0, 1]` outside `[t0, t1]` gives a point outside the rectangle. */
  ghost predicate ClippedAway(line: Line, r: ClippingRectangle, t0: real, t1: real)
  {
    forall s :: 0.0 <= s <= 1.0 && !(t0 <= s <= t1) ==> !Inside(PointAt(line, s), r)
  }

  /**
   * The loop state is the part of `line` between parameters `t0` and `t1`,
   * with the codes of its endpoints, and nothing cut off so far was visible.
   */
  ghost predicate Tracks(line: Line, r: ClippingRectangle, s: ClipState, t0: real, t1: real)
  {
    && 0.0 <= t0 <= t1 <= 1.0
    && s.line == Line(PointAt(line, t0), PointAt(line, t1))
    && CodesOf(s, r)
    && ClippedAway(line, r, t0, t1)
  }

  /** The parameters `[t0, t1]` are exactly those of the visible points of `line`. */
  ghost predicate VisiblePart(line: Line, r: ClippingRectangle, t0: real, t1: real)
  {
    && 0.0 <= t0 <= t1 <= 1.0
    && forall s :: 0.0 <= s <= 1.0 ==> (Inside(PointAt(line, s), r) <==> t0 <= s <= t1)
  }

  /** The number of boundary bits set in a code. */
  function Bits(c: bv8): nat
  {
    (if c & TOP != 0 then 1 else 0) + (if c & BOTTOM != 0 then 1 else 0)
    + (if c & RIGHT != 0 then 1 else 0) + (if c & LEFT != 0 then 1 else 0)
  }

  /** Dropping a set boundary bit without adding any lowers the bit count. */
  lemma FewerBits(x: bv8, y: bv8, b: bv8)
    requires IsBoundary(b) && y & b != 0 && x & b == 0
    requires forall b' | IsBoundary(b') :: x & b' != 0 ==> y & b' != 0
    ensures Bits(x) < Bits(y)
  {
    assert IsBoundary(TOP) && IsBoundary(BOTTOM) && IsBoundary(RIGHT) && IsBoundary(LEFT);
  }

  /**
   * One loop step keeps the state a sub-segment of `line` with nothing visible
   * cut off, and strictly lowers the number of boundary bits set in either code.
   */
  lemma StepAdvances(line: Line, r: ClippingRectangle, st: ClipState, t0: real, t1: real)
    returns (u0: real, u1: real)
    requires ValidRectangle(r)
    requires Tracks(line, r, st, t0, t1)
    requires st.firstCode | st.lastCode != 0 && st.firstCode & st.lastCode == 0
    ensures OnLine(line, st.line.first) && OnLine(line, st.line.last)
    ensures Tracks(line, r, ClipStep(line, r, st), u0, u1)
    ensures Bits(ClipStep(line, r, st).firstCode | ClipStep(line, r, st).lastCode)
            < Bits(st.firstCode | st.lastCode)
  {
    PointAtOnLine(line, t0);
    PointAtOnLine(line, t1);
    var st' := ClipStep(line, r, st);
    var b := Chosen(ActiveCode(st));
    var t := BoundaryParam(line, r, b);
    var oldCodes := st.firstCode | st.lastCode;
    var newCodes := st'.firstCode | st'.lastCode;
    var moved := OutCode(PointAt(line, t), r);
    CodeBit(st.line.first, r, b);
    CodeBit(st.line.last, r, b);
    if st.firstCode != 0 {
      ChosenIsSet(st.firstCode);
      CutFromFirst(line, r, b, t0, t1, t);
      u0, u1 := t, t1;
      assert newCodes == moved | st.lastCode;
    } else {
      ChosenIsSet(st.lastCode);
      CutFromLast(line, r, b, t0, t1, t);
      u0, u1 := t0, t;
      assert newCodes == st.firstCode | moved;
    }
    CodesShrink(line, r, b, t0, t1, t);
    FewerBits(newCodes, oldCodes, b);
  }

  /**
   * When the first endpoint violates `b` and the last does not, the crossing
   * with `b` lies in `(t0, t1]` and everything before it is invisible.
   */
  lemma CutFromFirst(line: Line, r: ClippingRectangle, b: bv8, t0: real, t1: real, t: real)
    requires IsBoundary(b) && 0.0 <= t0 <= t1 <= 1.0
    requires Beyond(PointAt(line, t0), r, b) && !Beyond(PointAt(line, t1), r, b)
    requires Excess(PointAt(line, t), r, b) == 0.0
    requires ClippedAway(line, r, t0, t1)
    ensures t0 < t <= t1 && ClippedAway(line, r, t, t1)
  {
    FallingCrossing(line, r, b, t0, t1, t);
    InvisibleBefore(line, r, b, t);
  }

  /**
   * When the last endpoint violates `b` and the first does not, the crossing
   * with `b` lies in `[t0, t1)` and everything after it is invisible.
   */
  lemma CutFromLast(line: Line, r: ClippingRectangle, b: bv8, t0: real, t1: real, t: real)
    requires IsBoundary(b) && 0.0 <= t0 <= t1 <= 1.0
    requires !Beyond(PointAt(line, t0), r, b) && Beyond(PointAt(line, t1), r, b)
    requires Excess(PointAt(line, t), r, b) == 0.0
    requires ClippedAway(line, r, t0, t1)
    ensures t0 <= t < t1 && ClippedAway(line, r, t0, t)
  {
    RisingCrossing(line, r, b, t0, t1, t);
    InvisibleAfter(line, r, b, t);
  }

  /** A boundary excess falling from positive to non-positive crosses zero once, in `(t0, t1]`. */
  lemma FallingCrossing(line: Line, r: ClippingRectangle, b: bv8, t0: real, t1: real, t: real)
    requires t0 <= t1
    requires Beyond(PointAt(line, t0), r, b) && !Beyond(PointAt(line, t1), r, b)
    requires Excess(PointAt(line, t), r, b) == 0.0
    ensures Rate(line, b) < 0.0 && t0 < t <= t1
    ensures Excess(line.first, r, b) + t * Rate(line, b) == 0.0
  {
    ExcessAlong(line, r, b, t0);
    ExcessAlong(line, r, b, t1);
    ExcessAlong(line, r, b, t);
    AffineFallsTo(Excess(line.first, r, b), Rate(line, b), t0, t1, t);
  }

  /** A boundary excess rising from non-positive to positive crosses zero once, in `[t0, t1)`. */
  lemma RisingCrossing(line: Line, r: ClippingRectangle, b: bv8, t0: real, t1: real, t: real)
    requires t0 <= t1
    requires !Beyond(PointAt(line, t0), r, b) && Beyond(PointAt(line, t1), r, b)
    requires Excess(PointAt(line, t), r, b) == 0.0
    ensures Rate(line, b) > 0.0 && t0 <= t < t1
    ensures Excess(line.first, r, b) + t * Rate(line, b) == 0.0
  {
    ExcessAlong(line, r, b, t0);
    ExcessAlong(line, r, b, t1);
    ExcessAlong(line, r, b, t);
    AffineRisesFrom(Excess(line.first, r, b), Rate(line, b), t0, t1, t);
  }

  /** Before the zero of a falling boundary excess, every point violates that boundary. */
  lemma InvisibleBefore(line: Line, r: ClippingRectangle, b: bv8, t: real)
    requires IsBoundary(b) && Rate(line, b) < 0.0
    requires Excess(line.first, r, b) + t * Rate(line, b) == 0.0
    ensures forall s :: s < t ==> !Inside(PointAt(line, s), r)
  {
    forall s | s < t
      ensures !Inside(PointAt(line, s), r)
    {
      CutInvisible(line, r, b, s, t);
    }
  }

  /** After the zero of a rising boundary excess, every point violates that boundary. */
  lemma InvisibleAfter(line: Line, r: ClippingRectangle, b: bv8, t: real)
    requires IsBoundary(b) && Rate(line, b) > 0.0
    requires Excess(line.first, r, b) + t * Rate(line, b) == 0.0
    ensures forall s :: t < s ==> !Inside(PointAt(line, s), r)
  {
    forall s | t < s
      ensures !Inside(PointAt(line, s), r)
    {
      CutInvisible(line, r, b, s, t);
    }
  }

  /**
   * A parameter on the outer side of the zero of a boundary's excess gives a
   * point violating that boundary.
   */
  lemma CutInvisible(line: Line, r: ClippingRectangle, b: bv8, s: real, t: real)
    requires IsBoundary(b)
    requires Excess(line.first, r, b) + t * Rate(line, b) == 0.0
    requires (Rate(line, b) < 0.0 && s < t) || (Rate(line, b) > 0.0 && t < s)
    ensures !Inside(PointAt(line, s), r)
  {
    var a, d := Excess(line.first, r, b), Rate(line, b);
    ExcessAlong(line, r, b, s);
    if d < 0.0 {
      AffinePositiveBefore(a, d, s, t);
    } else {
      AffinePositiveAfter(a, d, s, t);
    }
    assert Beyond(PointAt(line, s), r, b);
    InsideNoExcess(PointAt(line, s), r);
  }

  /**
   * A point between two others violates only boundaries one of them violates,
   * and a point on boundary `b` does not violate `b`.
   */
  lemma CodesShrink(line: Line, r: ClippingRectangle, b: bv8, t0: real, t1: real, t: real)
    requires ValidRectangle(r) && IsBoundary(b) && t0 <= t <= t1
    requires Excess(PointAt(line, t), r, b) == 0.0
    ensures OutCode(PointAt(line, t), r) & b == 0
    ensures forall b' | IsBoundary(b') ::
              OutCode(PointAt(line, t), r) & b' != 0 ==>
                (OutCode(PointAt(line, t0), r) | OutCode(PointAt(line, t1), r)) & b' != 0
  {
    CodeBit(PointAt(line, t), r, b);
    forall b' | IsBoundary(b')
      ensures OutCode(PointAt(line, t), r) & b' != 0 ==>
                (OutCode(PointAt(line, t0), r) | OutCode(PointAt(line, t1), r)) & b' != 0
    {
      CodeBit(PointAt(line, t), r, b');
      CodeBit(PointAt(line, t0), r, b');
      CodeBit(PointAt(line, t1), r, b');
      BeyondBetween(line, r, b', t0, t, t1);
    }
  }

  /** A point between two points that both keep within a boundary keeps within it too. */
  lemma BeyondBetween(line: Line, r: ClippingRectangle, b: bv8, t0: real, s: real, t1: real)
    requires t0 <= s <= t1
    ensures Beyond(PointAt(line, s), r, b) ==> Beyond(PointAt(line, t0), r, b) || Beyond(PointAt(line, t1), r, b)
    ensures Beyond(PointAt(line, t0), r, b) && Beyond(PointAt(line, t1), r, b) ==> Beyond(PointAt(line, s), r, b)
  {
    ExcessBetween(line, r, b, t0, s, t1);
  }

  /** Along a line, the excess at a middle parameter lies between the excesses at the ends. */
  lemma ExcessBetween(line: Line, r: ClippingRectangle, b: bv8, t0: real, s: real, t1: real)
    requires t0 <= s <= t1
    ensures var e0, es, e1 := Excess(PointAt(line, t0), r, b), Excess(PointAt(line, s), r, b), Excess(PointAt(line, t1), r, b);
            e0 <= es <= e1 || e1 <= es <= e0
  {
    ExcessAlong(line, r, b, t0);
    ExcessAlong(line, r, b, t1);
    ExcessAlong(line, r, b, s);
    ValuesBetween(Excess(PointAt(line, t0), r, b), Excess(PointAt(line, s), r, b), Excess(PointAt(line, t1), r, b),
                  Excess(line.first, r, b), Rate(line, b), t0, s, t1);
  }

  /** `AffineBetween` for named values of the affine function. */
  lemma ValuesBetween(e0: real, es: real, e1: real, a: real, d: real, t0: real, s: real, t1: real)
    requires t0 <= s <= t1 && e0 == a + t0 * d && es == a + s * d && e1 == a + t1 * d
    ensures e0 <= es <= e1 || e1 <= es <= e0
  {
    AffineBetween(a, d, t0, s, t1);
  }

  /** When both codes share a bit, no point of the current part is visible. */
  lemma RejectedInvisible(line: Line, r: ClippingRectangle, st: ClipState, t0: real, t1: real)
    requires ValidRectangle(r)
    requires Tracks(line, r, st, t0, t1)
    requires st.firstCode & st.lastCode != 0
    ensures forall s :: 0.0 <= s <= 1.0 ==> !Inside(PointAt(line, s), r)
  {
    var b := Chosen(st.firstCode & st.lastCode);
    ChosenIsSet(st.firstCode & st.lastCode);
    CodeBit(st.line.first, r, b);
    CodeBit(st.line.last, r, b);
    forall s | 0.0 <= s <= 1.0
      ensures !Inside(PointAt(line, s), r)
    {
      if t0 <= s <= t1 {
        BeyondBetween(line, r, b, t0, s, t1);
        InsideNoExcess(PointAt(line, s), r);
      }
    }
  }

  /** When both codes are zero, the current part is exactly the visible part. */
  lemma AcceptedVisible(line: Line, r: ClippingRectangle, st: ClipState, t0: real, t1: real)
    requires ValidRectangle(r)
    requires Tracks(line, r, st, t0, t1)
    requires st.firstCode | st.lastCode == 0
    ensures VisiblePart(line, r, t0, t1)
  {
    InsideNoExcess(PointAt(line, t0), r);
    InsideNoExcess(PointAt(line, t1), r);
    forall s | 0.0 <= s <= 1.0 && t0 <= s <= t1
      ensures Inside(PointAt(line, s), r)
    {
      forall b | IsBoundary(b)
        ensures !Beyond(PointAt(line, s), r, b)
      {
        BeyondBetween(line, r, b, t0, s, t1);
      }
      InsideNoExcess(PointAt(line, s), r);
    }
  }

  /** On a rectangle with an empty interval every point has a non-zero code. */
  lemma EmptyRectangleOutside(p: Point2d, r: ClippingRectangle)
    requires !ValidRectangle(r)
    ensures OutCode(p, r) != 0
    ensures r.xMin > r.xMax ==> OutCode(p, r) & (RIGHT | LEFT) != 0
    ensures r.yMin > r.yMax ==> OutCode(p, r) & (TOP | BOTTOM) != 0
  {
  }

  /**
   * On a rectangle with an empty interval the first endpoint is always the
   * one moved, and one pass either makes the two codes share a bit (so the
   * next pass rejects) or lowers the number of bits in the first code.
   */
  lemma EmptyRectangleStep(line: Line, r: ClippingRectangle, st: ClipState)
    requires !ValidRectangle(r)
    requires CodesOf(st, r) && OnLine(line, st.line.first) && OnLine(line, st.line.last)
    requires st.firstCode | st.lastCode != 0 && st.firstCode & st.lastCode == 0
    ensures st.firstCode != 0
    ensures OnLine(line, ClipStep(line, r, st).line.first)
    ensures ClipStep(line, r, st).line.last == st.line.last
    ensures var st' := ClipStep(line, r, st);
            st'.firstCode & st'.lastCode != 0 || Bits(st'.firstCode) < Bits(st.firstCode)
  {
    EmptyRectangleOutside(st.line.first, r);
    EmptyRectangleOutside(st.line.last, r);
    var st' := ClipStep(line, r, st);
    var b := Chosen(st.firstCode);
    PointAtOnLine(line, BoundaryParam(line, r, b));
    EmptyRectangleOutside(st'.line.first, r);
    if b == TOP || b == BOTTOM {
      if r.yMin <= r.yMax {
        assert st'.firstCode & (TOP | BOTTOM) == 0;
        assert st.firstCode & (RIGHT | LEFT) != 0;
      }
    }
  }

  /**
   * Cohen–Sutherland clipping (clipping.rs:37-77). `Some` holds the visible
   * part of `line`, with its direction kept; `None` means no point of the
   * segment is inside the rectangle, which is always the answer on a
   * rectangle with an empty interval.
   */
  method CohenSutherlandLineClip(line: Line, r: ClippingRectangle) returns (result: Option<Line>)
    ensures !ValidRectangle(r) ==> result == None
    ensures Inside(line.first, r) && Inside(line.last, r) ==> result == Some(line)
    ensures OutCode(line.first, r) & OutCode(line.last, r) != 0 ==> result == None
    ensures result.Some? ==> Inside(result.value.first, r) && Inside(result.value.last, r)
    ensures result.Some? ==>
              exists t0, t1 :: VisiblePart(line, r, t0, t1)
                               && result.value == Line(PointAt(line, t0), PointAt(line, t1))
    ensures result.None? ==> forall s :: 0.0 <= s <= 1.0 ==> !Inside(PointAt(line, s), r)
  {
    var st := ClipState(line, OutCode(line.first, r), OutCode(line.last, r));
    var done := false;
    result := Some(line);
    ghost var t0, t1 := 0.0, 1.0;
    PointAtEnds(line);
    PointAtOnLine(line, 0.0);
    PointAtOnLine(line, 1.0);
    if !ValidRectangle(r) {
      EmptyRectangleOutside(line.first, r);
      EmptyRectangleOutside(line.last, r);
    }
    while !done
      invariant ClipInvariant(line, r, st, t0, t1)
      invariant !done ==> result == Some(st.line)
      invariant done ==> || (result == Some(st.line) && st.firstCode | st.lastCode == 0)
                         || (result == None && st.firstCode & st.lastCode != 0)
      decreases if done then 0 else ClipMeasure(r, st)
    {
      if st.firstCode | st.lastCode == 0 {
        done := true;
      } else if st.firstCode & st.lastCode != 0 {
        result := None;
        done := true;
      } else {
        t0, t1 := ClipAdvances(line, r, st, t0, t1);
        st := ClipStep(line, r, st);
        result := Some(st.line);
      }
    }
    ClipOutcome(line, r, st, t0, t1, result);
  }

  /**
   * What the clip loop keeps: the current part of `line` with its codes, on
   * the original line; on a valid rectangle nothing visible has been cut
   * off, and on an empty one both codes stay non-zero. The part differs from
   * `line` only if the first pass neither accepted nor rejected.
   */
  ghost predicate ClipInvariant(line: Line, r: ClippingRectangle, st: ClipState, t0: real, t1: real)
  {
    && (ValidRectangle(r) ==> Tracks(line, r, st, t0, t1))
    && CodesOf(st, r) && OnLine(line, st.line.first) && OnLine(line, st.line.last)
    && (!ValidRectangle(r) ==> st.firstCode != 0 && st.lastCode != 0)
    && (st.line != line ==>
          OutCode(line.first, r) | OutCode(line.last, r) != 0
          && OutCode(line.first, r) & OutCode(line.last, r) == 0)
  }

  /**
   * The clip loop's termination measure: set bits of both codes on a valid
   * rectangle; on an empty one, the first code's bits, or less once the two
   * codes share a bit.
   */
  function ClipMeasure(r: ClippingRectangle, st: ClipState): nat
  {
    if ValidRectangle(r) then 1 + Bits(st.firstCode | st.lastCode)
    else if st.firstCode & st.lastCode != 0 then 1
    else 2 + Bits(st.firstCode)
  }

  /** One pass of the loop keeps its invariant and lowers its measure. */
  lemma ClipAdvances(line: Line, r: ClippingRectangle, st: ClipState, t0: real, t1: real)
    returns (u0: real, u1: real)
    requires ClipInvariant(line, r, st, t0, t1)
    requires st.firstCode | st.lastCode != 0 && st.firstCode & st.lastCode == 0
    ensures ClipInvariant(line, r, ClipStep(line, r, st), u0, u1)
    ensures ClipMeasure(r, ClipStep(line, r, st)) < ClipMeasure(r, st)
  {
    if ValidRectangle(r) {
      u0, u1 := StepAdvances(line, r, st, t0, t1);
      PointAtOnLine(line, u0);
      PointAtOnLine(line, u1);
    } else {
      u0, u1 := t0, t1;
      EmptyRectangleStep(line, r, st);
      EmptyRectangleOutside(ClipStep(line, r, st).line.first, r);
    }
  }

  /** What the loop's exit state means for the clip result. */
  lemma ClipOutcome(line: Line, r: ClippingRectangle, st: ClipState, t0: real, t1: real, result: Option<Line>)
    requires ClipInvariant(line, r, st, t0, t1)
    requires || (result == Some(st.line) && st.firstCode | st.lastCode == 0)
             || (result == None && st.firstCode & st.lastCode != 0)
    ensures !ValidRectangle(r) ==> result == None
    ensures Inside(line.first, r) && Inside(line.last, r) ==> result == Some(line)
    ensures OutCode(line.first, r) & OutCode(line.last, r) != 0 ==> result == None
    ensures result.Some? ==> Inside(result.value.first, r) && Inside(result.value.last, r)
    ensures result.Some? ==>
              exists t0, t1 :: VisiblePart(line, r, t0, t1)
                               && result.value == Line(PointAt(line, t0), PointAt(line, t1))
    ensures result.None? ==> forall s :: 0.0 <= s <= 1.0 ==> !Inside(PointAt(line, s), r)
  {
    if result.Some? {
      AcceptedVisible(line, r, st, t0, t1);
    } else if ValidRectangle(r) {
      RejectedInvisible(line, r, st, t0, t1);
    }
  }
}
