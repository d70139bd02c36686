/**
 * Edge-table scan-line fill of a polygon (src/polygon.rs). Vertices are the
 * already rounded, non-negative `u32` coordinates; the `i32` bookkeeping of
 * the source is `int` here, with its truncating division written out.
 */
module ScanFill {

  import opened Geometry

  /** A polygon vertex after rounding. */
  datatype Vertex = Vertex(x: nat, y: nat)

  /** `nominator / denominator`, as the source keeps it (src/polygon.rs:19-23). */
  datatype Fraction = Fraction(nominator: int, denominator: int)

  /**
   * The current x of an edge on the scan line: `increment` plus the fraction
   * (src/polygon.rs:25-29).
   */
  datatype LowerEndpointInc = LowerEndpointInc(increment: int, fraction: Fraction)

  /** One edge in the tables (src/polygon.rs:31-36). */
  datatype SegmentDesc = SegmentDesc(yMax: nat, lowerEndpointX: LowerEndpointInc, slopeInv: Fraction)

  /** An edge with the row it is bucketed under. */
  datatype Edge = Edge(yMin: nat, desc: SegmentDesc)

  /** The edge table: the edges starting on each row (src/polygon.rs:38-40). */
  type EdgeTable = map<nat, seq<SegmentDesc>>

  function Abs(a: int): nat
  {
    if a < 0 then -a else a
  }

  /** The scan-line x an edge is at: its integer part. */
  function StartX(s: SegmentDesc): int
  {
    s.lowerEndpointX.increment
  }

  /** Rust's `i32` division: the quotient rounded toward zero. */
  function TruncDiv(a: int, b: int): (q: int)
    requires b != 0
    ensures Abs(q) == Abs(a) / Abs(b)
    ensures (a < 0) == (b < 0) ==> q >= 0
    ensures (a < 0) != (b < 0) ==> q <= 0
  {
    var m := Abs(a) / Abs(b);
    assert m >= 0 by {
      DivNonNegative(Abs(a), Abs(b));
    }
    if (a < 0) == (b < 0) then m else -m
  }

  lemma DivNonNegative(a: nat, b: nat)
    requires b > 0
    ensures a / b >= 0
  {
  }

  /**
   * One polygon side from `first` to `second`, as the loop body of
   * `from_points` describes it (src/polygon.rs:53-75).
   */
  function Describe(first: Vertex, second: Vertex): Edge
  {
    var smallerX := if first.x < second.x then first.x else second.x;
    var biggerX := if first.x > second.x then first.x else second.x;
    var smallerY := if first.y < second.y then first.y else second.y;
    var biggerY := if first.y > second.y then first.y else second.y;
    var farthestY := if first.x > second.x then first.y else second.y;
    var nearestY := if first.x < second.x then first.y else second.y;
    var deltaX := biggerX - smallerX;
    var deltaY := farthestY - nearestY;
    var nominator := if deltaX < 0 && deltaY < 0 then Abs(deltaX) else if deltaY < 0 then -deltaX else deltaX;
    var denominator := Abs(deltaY);
    var lowerEndpointX := if first.y < second.y then first.x else second.x;
    Edge(smallerY, SegmentDesc(biggerY, LowerEndpointInc(lowerEndpointX, Fraction(0, denominator)),
                               Fraction(nominator, denominator)))
  }

  /**
   * What `Describe` records: the side is bucketed under its lower y, ends at
   * its upper y and starts at the x of its lower endpoint, with a zero start
   * fraction; the inverse slope has denominator `|dy|` (zero for a vertical
   * side as well as a horizontal one) and numerator the signed run over it.
   */
  lemma DescribeMeaning(first: Vertex, second: Vertex)
    ensures var e := Describe(first, second);
            var lower := if first.y < second.y then first else second;
            var upper := if first.y < second.y then second else first;
            && e.yMin == lower.y && e.desc.yMax == upper.y
            && e.yMin == (if first.y < second.y then first.y else second.y)
            && e.desc.yMax == (if first.y > second.y then first.y else second.y)
            && StartX(e.desc) == lower.x
            && e.desc.lowerEndpointX.fraction == Fraction(0, e.desc.slopeInv.denominator)
            && e.desc.slopeInv.denominator == (if first.x == second.x then 0 else Abs(second.y - first.y))
            && e.desc.slopeInv.nominator * (e.desc.yMax - e.yMin)
               == (upper.x - lower.x) * e.desc.slopeInv.denominator
  {
    var e := Describe(first, second);
    var lower := if first.y < second.y then first else second;
    var upper := if first.y < second.y then second else first;
    var num, den := e.desc.slopeInv.nominator, e.desc.slopeInv.denominator;
    if first.x != second.x && first.y != second.y {
      assert den == Abs(second.y - first.y) == e.desc.yMax - e.yMin;
      assert num == upper.x - lower.x;
    }
  }

  /** Index of the second endpoint of side `i`: the next vertex, wrapping at the end. */
  function NextIndex(n: nat, i: nat): (j: nat)
    requires i < n
    ensures j < n && j == (i + 1) % n
  {
    if i == n - 1 then
      assert (i + 1) % n == (1 * n) % n == 0;
      0
    else
      assert (i + 1) / n == 0;
      i + 1
  }

  /** Side `i` of the polygon, from vertex `i` to the next one. */
  function SideOf(points: seq<Vertex>, i: nat): Edge
    requires i < |points|
  {
    Describe(points[i], points[NextIndex(|points|, i)])
  }

  /** The first `k` sides, in the order the construction loop visits them. */
  function Sides(points: seq<Vertex>, k: nat): (es: seq<Edge>)
    requires k <= |points|
    ensures |es| == k
    ensures forall i | 0 <= i < k :: es[i] == SideOf(points, i)
  {
    if k == 0 then [] else Sides(points, k - 1) + [SideOf(points, k - 1)]
  }

  /** The descriptions of the edges of `es` bucketed under row `y`, in order. */
  function Bucket(es: seq<Edge>, y: nat): seq<SegmentDesc>
  {
    if es == [] then []
    else Bucket(es[..|es| - 1], y) + (if es[|es| - 1].yMin == y then [es[|es| - 1].desc] else [])
  }

  /** The rows of `es` before sorting: each edge appended to its row's list. */
  function Bucketed(es: seq<Edge>): EdgeTable
  {
    if es == [] then map[]
    else
      var t := Bucketed(es[..|es| - 1]);
      var e := es[|es| - 1];
      t[e.yMin := (if e.yMin in t then t[e.yMin] else []) + [e.desc]]
  }

  /**
   * Appending each edge to its row's list leaves under every row exactly
   * the edges starting there, in their original order, and no empty rows.
   */
  lemma {:induction false} BucketedRows(es: seq<Edge>)
    ensures forall y :: y in Bucketed(es) <==> Bucket(es, y) != []
    ensures forall y | y in Bucketed(es) :: Bucketed(es)[y] == Bucket(es, y)
  {
    if es != [] {
      BucketedRows(es[..|es| - 1]);
    }
  }

  /** A row has a non-empty bucket exactly when some edge starts on it. */
  lemma {:induction false} BucketNonEmpty(es: seq<Edge>, y: nat)
    ensures Bucket(es, y) != [] <==> exists i | 0 <= i < |es| :: es[i].yMin == y
  {
    if es != [] {
      BucketNonEmpty(es[..|es| - 1], y);
      var init := es[..|es| - 1];
      assert forall i | 0 <= i < |init| :: init[i] == es[i];
    }
  }

  /** The edges are in non-decreasing order of their current x. */
  predicate SortedByX(s: seq<SegmentDesc>)
  {
    forall i, j | 0 <= i < j < |s| :: StartX(s[i]) <= StartX(s[j])
  }

  /**
   * Inserts `e` into a sorted list after every edge whose x is not larger,
   * so that equal keys keep their order as in a stable sort.
   */
  function InsertByX(s: seq<SegmentDesc>, e: SegmentDesc): (r: seq<SegmentDesc>)
    requires SortedByX(s)
    ensures SortedByX(r)
    ensures multiset(r) == multiset(s) + multiset{e}
  {
    if s == [] then [e]
    else if StartX(s[|s| - 1]) <= StartX(e) then
      SortedAppend(s, e);
      s + [e]
    else
      var init, last := s[..|s| - 1], s[|s| - 1];
      assert s == init + [last];
      var r' := InsertByX(init, e);
      forall x | x in r'
        ensures StartX(x) <= StartX(last)
      {
        assert x in multiset(r');
        assert x == e || x in init;
      }
      SortedAppend(r', last);
      r' + [last]
  }

  /** Appending an edge whose x is not below any other keeps the list sorted. */
  lemma SortedAppend(s: seq<SegmentDesc>, e: SegmentDesc)
    requires SortedByX(s) && forall x | x in s :: StartX(x) <= StartX(e)
    ensures SortedByX(s + [e])
  {
    forall i, j | 0 <= i < j < |s| + 1
      ensures StartX((s + [e])[i]) <= StartX((s + [e])[j])
    {
      if j == |s| {
        assert s[i] in s;
      }
    }
  }

  /**
   * The stable sort by current x that `sort_by` performs on a row
   * (src/polygon.rs:79, src/polygon.rs:101): a sorted permutation.
   */
  function SortByX(s: seq<SegmentDesc>): (r: seq<SegmentDesc>)
    ensures SortedByX(r)
    ensures multiset(r) == multiset(s)
  {
    if s == [] then []
    else
      assert s == s[..|s| - 1] + [s[|s| - 1]];
      InsertByX(SortByX(s[..|s| - 1]), s[|s| - 1])
  }

  /**
   * `EdgeTable::from_points` (src/polygon.rs:43-82): every side bucketed
   * under its lower row, each row then sorted by starting x. With fewer than
   * two vertices there are no sides.
   */
  function FromPoints(points: seq<Vertex>): EdgeTable
  {
    if |points| >= 2 then
      var rows := Bucketed(Sides(points, |points|));
      map y | y in rows :: SortByX(rows[y])
    else map[]
  }

  /**
   * The edge table holds exactly the polygon's sides: a row is present when
   * some side starts on it, and its list is a sorted permutation of those
   * sides, side `i` joining vertex `i` to vertex `(i + 1) % n`.
   */
  lemma FromPointsRows(points: seq<Vertex>)
    ensures |points| < 2 ==> FromPoints(points) == map[]
    ensures |points| >= 2 ==>
              forall y :: y in FromPoints(points) <==> exists i | 0 <= i < |points| :: SideOf(points, i).yMin == y
    ensures |points| >= 2 ==>
              forall y | y in FromPoints(points) ::
                && SortedByX(FromPoints(points)[y])
                && multiset(FromPoints(points)[y]) == multiset(Bucket(Sides(points, |points|), y))
  {
    if |points| >= 2 {
      var es := Sides(points, |points|);
      BucketedRows(es);
      forall y
        ensures y in FromPoints(points) <==> exists i | 0 <= i < |points| :: SideOf(points, i).yMin == y
      {
        BucketNonEmpty(es, y);
      }
    }
  }

  /** Every edge of `es` is in the bucket of its lower row. */
  lemma {:induction false} BucketHas(es: seq<Edge>, i: nat)
    requires i < |es|
    ensures es[i].desc in Bucket(es, es[i].yMin)
  {
    if i < |es| - 1 {
      BucketHas(es[..|es| - 1], i);
    }
  }

  /**
   * `ActiveEdgeTable::insert_row` (src/polygon.rs:94-104): with no bucket
   * for `y` the list is untouched; otherwise the bucket is appended and the
   * whole list sorted by current x.
   */
  function InsertRow(y: nat, table: EdgeTable, edges: seq<SegmentDesc>): (r: seq<SegmentDesc>)
    ensures y !in table ==> r == edges
    ensures y in table ==> SortedByX(r) && multiset(r) == multiset(edges + table[y])
  {
    if y in table then SortByX(edges + table[y]) else edges
  }

  /**
   * The edges with `yMax >= row`, in their original order: the reference
   * for `remove_lover_edges`.
   */
  function Keep(s: seq<SegmentDesc>, row: nat): seq<SegmentDesc>
  {
    if s == [] then []
    else Keep(s[..|s| - 1], row) + (if s[|s| - 1].yMax >= row then [s[|s| - 1]] else [])
  }

  /** `Keep` takes each edge with its multiplicity when it reaches `row`, and drops it otherwise. */
  lemma {:induction false} KeepCounts(s: seq<SegmentDesc>, row: nat)
    ensures forall e :: multiset(Keep(s, row))[e] == if e.yMax >= row then multiset(s)[e] else 0
  {
    if s != [] {
      KeepCounts(s[..|s| - 1], row);
      assert s == s[..|s| - 1] + [s[|s| - 1]];
    }
  }

  /** `Keep` works piecewise, so it preserves the relative order of the kept edges. */
  lemma {:induction false} KeepAppend(a: seq<SegmentDesc>, b: seq<SegmentDesc>, row: nat)
    ensures Keep(a + b, row) == Keep(a, row) + Keep(b, row)
  {
    if b != [] {
      var b' := b[..|b| - 1];
      assert (a + b)[..|a + b| - 1] == a + b';
      KeepAppend(a, b', row);
    } else {
      assert a + b == a;
    }
  }

  /**
   * `ActiveEdgeTable::remove_lover_edges` (src/polygon.rs:106-121): a first
   * pass collects the indices of edges ending below `row`, a second copies
   * the others.
   */
  method RemoveLowerEdges(edges: seq<SegmentDesc>, row: nat) returns (r: seq<SegmentDesc>)
    ensures r == Keep(edges, row)
  {
    var idxToRemove: set<nat> := {};
    var length := |edges|;
    var x := 0;
    while x < length
      invariant x <= length
      invariant forall i :: i in idxToRemove <==> 0 <= i < x && edges[i].yMax < row
    {
      if edges[x].yMax < row {
        idxToRemove := idxToRemove + {x};
      }
      x := x + 1;
    }
    r := [];
    x := 0;
    while x < length
      invariant x <= length
      invariant r == Keep(edges[..x], row)
    {
      if x !in idxToRemove {
        r := r + [edges[x]];
      }
      assert edges[..x + 1][..x] == edges[..x];
      x := x + 1;
    }
    assert edges[..length] == edges;
  }

  /**
   * One row's advance of one edge (the loop body of `increment_row`,
   * src/polygon.rs:124-139): the slope numerator is added to the fraction,
   * the quotient by the denominator moves the integer part, and a numerator
   * whose magnitude exceeds the denominator is reduced. `reduceAtDenominator`
   * also reduces a numerator whose magnitude equals the denominator; the
   * source leaves it out.
   */
  function Advance(e: SegmentDesc, reduceAtDenominator: bool): (r: SegmentDesc)
    ensures r.yMax == e.yMax && r.slopeInv == e.slopeInv
    ensures r.lowerEndpointX.fraction.denominator == e.lowerEndpointX.fraction.denominator
    ensures e.lowerEndpointX.fraction.denominator == 0 ==> StartX(r) == StartX(e)
  {
    var nominator := e.lowerEndpointX.fraction.nominator + e.slopeInv.nominator;
    var denominator := e.lowerEndpointX.fraction.denominator;
    if denominator != 0 then
      var quotient := TruncDiv(nominator, denominator);
      var reduced :=
        if Abs(nominator) > denominator || (reduceAtDenominator && Abs(nominator) == denominator) then
          var count := Abs(quotient);
          if nominator < denominator then nominator + count * denominator else nominator - count * denominator
        else nominator;
      e.(lowerEndpointX := LowerEndpointInc(StartX(e) + quotient, Fraction(reduced, denominator)))
    else
      e.(lowerEndpointX := e.lowerEndpointX.(fraction := Fraction(nominator, denominator)))
  }

  /** The exact x of an edge, scaled by its denominator. */
  function Scaled(e: SegmentDesc): int
  {
    StartX(e) * e.lowerEndpointX.fraction.denominator + e.lowerEndpointX.fraction.nominator
  }

  /** Truncating division leaves a remainder smaller than the divisor, with the dividend's sign. */
  lemma TruncSplit(n: int, d: int)
    requires d > 0
    ensures Abs(n - TruncDiv(n, d) * d) < d
    ensures n >= 0 ==> n - TruncDiv(n, d) * d >= 0
    ensures n < 0 ==> n - TruncDiv(n, d) * d <= 0
    ensures Abs(n) < d ==> TruncDiv(n, d) == 0
    ensures Abs(n) >= d ==> Abs(n - TruncDiv(n, d) * d) == Abs(n) - Abs(TruncDiv(n, d)) * d
  {
    TruncRemainder(n, d);
    if Abs(n) < d {
      assert Abs(n) / d == 0;
    }
  }

  /** The remainder of truncating division is the Euclidean remainder of the magnitude, signed. */
  lemma TruncRemainder(n: int, d: int)
    requires d > 0
    ensures n >= 0 ==> n - TruncDiv(n, d) * d == Abs(n) % d
    ensures n < 0 ==> n - TruncDiv(n, d) * d == -(Abs(n) % d)
    ensures Abs(TruncDiv(n, d)) * d + Abs(n) % d == Abs(n)
  {
    var m := Abs(n) / d;
    assert Abs(n) == m * d + Abs(n) % d;
    if n < 0 {
      assert TruncDiv(n, d) == -m;
      assert (-m) * d == -(m * d);
    }
  }

  /** A dividend of the divisor's magnitude divides to plus or minus one. */
  lemma TruncAtDivisor(n: int, d: int)
    requires d > 0 && Abs(n) == d
    ensures TruncDiv(n, d) * d == n
  {
    assert Abs(n) / d == 1;
  }

  /** Where the reduction applies, it leaves the remainder of the truncating division. */
  lemma ReducedIsRemainder(n: int, d: int)
    requires d > 0 && Abs(n) >= d
    ensures (if n < d then n + Abs(TruncDiv(n, d)) * d else n - Abs(TruncDiv(n, d)) * d) == n - TruncDiv(n, d) * d
  {
    TruncSplit(n, d);
    if n < d {
      assert n < 0 && TruncDiv(n, d) <= 0;
    } else {
      assert TruncDiv(n, d) >= 0;
    }
  }

  /**
   * The source's advance, for a positive denominator: the numerator stays
   * within the denominator in magnitude, and the exact x moves by one slope
   * step, except when the new numerator's magnitude equals the denominator:
   * then the integer part moves by one and the numerator is kept, so the
   * edge gains a whole extra unit of x.
   */
  lemma AdvanceAsWritten(e: SegmentDesc)
    requires e.lowerEndpointX.fraction.denominator > 0
    ensures var d, n := e.lowerEndpointX.fraction.denominator, e.lowerEndpointX.fraction.nominator + e.slopeInv.nominator;
            var r := Advance(e, false);
            && Abs(r.lowerEndpointX.fraction.nominator) <= d
            && (Abs(n) != d ==> Scaled(r) == Scaled(e) + e.slopeInv.nominator)
            && (Abs(n) == d ==> Scaled(r) == Scaled(e) + e.slopeInv.nominator + n
                                && r.lowerEndpointX.fraction.nominator == n)
  {
    var d, n := e.lowerEndpointX.fraction.denominator, e.lowerEndpointX.fraction.nominator + e.slopeInv.nominator;
    var q := TruncDiv(n, d);
    TruncSplit(n, d);
    if Abs(n) > d {
      ReducedIsRemainder(n, d);
    } else if Abs(n) == d {
      TruncAtDivisor(n, d);
    }
    var r := Advance(e, false);
    assert StartX(r) == StartX(e) + q;
    assert Scaled(r) == (StartX(e) + q) * d + r.lowerEndpointX.fraction.nominator;
  }

  /**
   * The corrected advance, for a positive denominator: the numerator stays
   * strictly below the denominator in magnitude and the exact x moves by
   * exactly one slope step, so no error accumulates.
   */
  lemma AdvanceExact(e: SegmentDesc)
    requires e.lowerEndpointX.fraction.denominator > 0
    ensures var r := Advance(e, true);
            && Abs(r.lowerEndpointX.fraction.nominator) < e.lowerEndpointX.fraction.denominator
            && Scaled(r) == Scaled(e) + e.slopeInv.nominator
  {
    var d, n := e.lowerEndpointX.fraction.denominator, e.lowerEndpointX.fraction.nominator + e.slopeInv.nominator;
    var q := TruncDiv(n, d);
    TruncSplit(n, d);
    if Abs(n) >= d {
      ReducedIsRemainder(n, d);
    }
    var r := Advance(e, true);
    assert r.lowerEndpointX.fraction.nominator == n - q * d;
    assert Scaled(r) == (StartX(e) + q) * d + (n - q * d);
  }

  /**
   * In the triangle (0, 6), (0, 0), (6, 6) the side from (0, 0) to (6, 6)
   * has inverse slope 6/6 and ends on row 6. Four advances of the source's
   * kind put its x at 6 on row 4, where the side is at x 4; the corrected
   * advance puts it at 4.
   */
  lemma DiagonalDrift()
    ensures var e := Describe(Vertex(0, 0), Vertex(6, 6)).desc;
            && e.slopeInv == Fraction(6, 6) && StartX(e) == 0 && e.yMax == 6
            && StartX(AdvanceTimes(e, 4, false)) == 6
            && StartX(AdvanceTimes(e, 4, true)) == 4
  {
    var e := Describe(Vertex(0, 0), Vertex(6, 6)).desc;
    assert TruncDiv(6, 6) == 1 && TruncDiv(12, 6) == 2;
    assert AdvanceTimes(e, 1, false).lowerEndpointX == LowerEndpointInc(1, Fraction(6, 6));
    assert AdvanceTimes(e, 2, false).lowerEndpointX == LowerEndpointInc(3, Fraction(0, 6));
    assert AdvanceTimes(e, 3, false).lowerEndpointX == LowerEndpointInc(4, Fraction(6, 6));
    assert AdvanceTimes(e, 4, false).lowerEndpointX == LowerEndpointInc(6, Fraction(0, 6));
    assert AdvanceTimes(e, 1, true).lowerEndpointX == LowerEndpointInc(1, Fraction(0, 6));
    assert AdvanceTimes(e, 2, true).lowerEndpointX == LowerEndpointInc(2, Fraction(0, 6));
    assert AdvanceTimes(e, 3, true).lowerEndpointX == LowerEndpointInc(3, Fraction(0, 6));
    assert AdvanceTimes(e, 4, true).lowerEndpointX == LowerEndpointInc(4, Fraction(0, 6));
  }

  /**
   * On row 4 of that triangle the diagonal side is paired with the vertical
   * side from (0, 6) to (0, 0), which stays at x 0. The triangle's row 4
   * runs from x 0 to x 4. The source's span covers the pixel (5, 4), which
   * lies strictly outside the triangle, and the corrected span does not.
   */
  lemma DiagonalDriftSpan()
    ensures Spanned([AdvanceTimes(Describe(Vertex(0, 6), Vertex(0, 0)).desc, 4, false),
                     AdvanceTimes(Describe(Vertex(0, 0), Vertex(6, 6)).desc, 4, false)], 4, 1, Pixel(5, 4))
    ensures !Spanned([AdvanceTimes(Describe(Vertex(0, 6), Vertex(0, 0)).desc, 4, true),
                      AdvanceTimes(Describe(Vertex(0, 0), Vertex(6, 6)).desc, 4, true)], 4, 1, Pixel(5, 4))
  {
    var e := Describe(Vertex(0, 0), Vertex(6, 6)).desc;
    var v := Describe(Vertex(0, 6), Vertex(0, 0)).desc;
    assert Spanned([AdvanceTimes(v, 4, false), AdvanceTimes(e, 4, false)], 4, 1, Pixel(5, 4)) by {
      DiagonalDrift();
      TallVertical();
      PairSpanned(AdvanceTimes(v, 4, false), AdvanceTimes(e, 4, false), 4, Pixel(5, 4));
    }
    assert !Spanned([AdvanceTimes(v, 4, true), AdvanceTimes(e, 4, true)], 4, 1, Pixel(5, 4)) by {
      DiagonalDrift();
      TallVertical();
      PairSpanned(AdvanceTimes(v, 4, true), AdvanceTimes(e, 4, true), 4, Pixel(5, 4));
    }
  }

  /**
   * A row filled from two edges gets exactly the pixels from the first
   * edge's x up to, but not including, the second's.
   */
  lemma PairSpanned(a: SegmentDesc, b: SegmentDesc, row: nat, p: Pixel)
    requires 0 <= StartX(a) && StartX(b) < 0x1_0000_0000
    ensures Spanned([a, b], row, 1, p) <==> p.y == row && StartX(a) <= p.x < StartX(b)
  {
    if Spanned([a, b], row, 1, p) {
      var j, xc :| InEvenSpan([a, b], j, xc) && j < 1 && p.x == U32(xc);
      U32Small(xc);
    }
    if p.y == row && StartX(a) <= p.x < StartX(b) {
      U32Small(p.x);
      assert InEvenSpan([a, b], 0, p.x);
    }
  }

  /** The vertical side from (0, 6) to (0, 0) stays at x 0 on every row, with either advance. */
  lemma TallVertical()
    ensures var v := Describe(Vertex(0, 6), Vertex(0, 0)).desc;
            StartX(AdvanceTimes(v, 4, false)) == 0 && StartX(AdvanceTimes(v, 4, true)) == 0
  {
    var v := Describe(Vertex(0, 6), Vertex(0, 0)).desc;
    assert v.lowerEndpointX == LowerEndpointInc(0, Fraction(0, 0));
    VerticalStays(v, 4, false);
    VerticalStays(v, 4, true);
  }

  /** An edge with denominator zero keeps its x however often it advances. */
  lemma {:induction false} VerticalStays(e: SegmentDesc, k: nat, reduceAtDenominator: bool)
    requires e.lowerEndpointX.fraction.denominator == 0
    ensures StartX(AdvanceTimes(e, k, reduceAtDenominator)) == StartX(e)
    ensures AdvanceTimes(e, k, reduceAtDenominator).lowerEndpointX.fraction.denominator == 0
  {
    if k > 0 {
      VerticalStays(e, k - 1, reduceAtDenominator);
    }
  }

  /** `k` successive advances of one edge. */
  function AdvanceTimes(e: SegmentDesc, k: nat, reduceAtDenominator: bool): SegmentDesc
  {
    if k == 0 then e else Advance(AdvanceTimes(e, k - 1, reduceAtDenominator), reduceAtDenominator)
  }

  /**
   * With the corrected advance, after `k` rows the exact x of an edge with a
   * positive denominator is its start plus `k` slope steps: no drift.
   */
  lemma {:induction false} NoDrift(e: SegmentDesc, k: nat)
    requires e.lowerEndpointX.fraction.denominator > 0
    ensures AdvanceTimes(e, k, true).lowerEndpointX.fraction.denominator == e.lowerEndpointX.fraction.denominator
    ensures AdvanceTimes(e, k, true).slopeInv == e.slopeInv
    ensures Scaled(AdvanceTimes(e, k, true)) == Scaled(e) + k * e.slopeInv.nominator
  {
    if k > 0 {
      NoDrift(e, k - 1);
      var prev := AdvanceTimes(e, k - 1, true);
      assert AdvanceTimes(e, k, true) == Advance(prev, true);
      AdvanceExact(prev);
      LinearStep(Scaled(e), Scaled(prev), Scaled(Advance(prev, true)), k, e.slopeInv.nominator);
    } else {
      assert AdvanceTimes(e, k, true) == e;
    }
  }

  lemma LinearStep(a: int, b: int, c: int, k: nat, s: int)
    requires k > 0 && b == a + (k - 1) * s && c == b + s
    ensures c == a + k * s
  {
  }

  /** The list holds an edge ending on row `y`. */
  predicate HasYMax(s: seq<SegmentDesc>, y: nat)
  {
    exists j | 0 <= j < |s| :: s[j].yMax == y
  }

  /**
   * `ActiveEdgeTable::increment_row` (src/polygon.rs:123-140): every edge
   * advances by one row, in place.
   */
  method IncrementRow(edges: seq<SegmentDesc>, reduceAtDenominator: bool) returns (r: seq<SegmentDesc>)
    ensures r == AdvanceAll(edges, reduceAtDenominator)
    ensures |r| == |edges|
    ensures forall i | 0 <= i < |r| ::
              && r[i].yMax == edges[i].yMax && r[i].slopeInv == edges[i].slopeInv
              && r[i].lowerEndpointX.fraction.denominator == edges[i].lowerEndpointX.fraction.denominator
              && (edges[i].lowerEndpointX.fraction.denominator == 0 ==> StartX(r[i]) == StartX(edges[i]))
    ensures forall i | 0 <= i < |r| && edges[i].lowerEndpointX.fraction.denominator > 0 ::
              Abs(r[i].lowerEndpointX.fraction.nominator) <= r[i].lowerEndpointX.fraction.denominator
    ensures reduceAtDenominator ==>
              forall i | 0 <= i < |r| && edges[i].lowerEndpointX.fraction.denominator > 0 ::
                Scaled(r[i]) == Scaled(edges[i]) + edges[i].slopeInv.nominator
    ensures forall y :: HasYMax(edges, y) ==> HasYMax(r, y)
  {
    r := [];
    while |r| < |edges|
      invariant |r| <= |edges|
      invariant forall i | 0 <= i < |r| :: r[i] == Advance(edges[i], reduceAtDenominator)
    {
      r := r + [Advance(edges[|r|], reduceAtDenominator)];
    }
    AdvanceAllAt(edges, reduceAtDenominator);
    forall i | 0 <= i < |r| && edges[i].lowerEndpointX.fraction.denominator > 0
      ensures Abs(r[i].lowerEndpointX.fraction.nominator) <= r[i].lowerEndpointX.fraction.denominator
      ensures reduceAtDenominator ==> Scaled(r[i]) == Scaled(edges[i]) + edges[i].slopeInv.nominator
    {
      AdvanceAsWritten(edges[i]);
      AdvanceExact(edges[i]);
    }
    forall y | HasYMax(edges, y)
      ensures HasYMax(r, y)
    {
      var j :| 0 <= j < |edges| && edges[j].yMax == y;
      assert r[j].yMax == y;
    }
  }

  /** The `as u32` cast of an `i32`: two's-complement wrap-around. */
  function U32(v: int): nat
  {
    v % 0x1_0000_0000
  }

  /** The cast leaves a value that fits in 32 bits unchanged. */
  lemma U32Small(v: int)
    requires 0 <= v < 0x1_0000_0000
    ensures U32(v) == v
  {
  }

  /** `xc` lies in the half-open span between edges `j` and `j + 1`, with `j` even. */
  predicate InEvenSpan(active: seq<SegmentDesc>, j: int, xc: int)
  {
    0 <= j < |active| - 1 && j % 2 == 0 && StartX(active[j]) <= xc < StartX(active[j + 1])
  }

  /** `p` is on `row` at (the cast of) some x in an even span among the first `upTo` pairs. */
  ghost predicate Spanned(active: seq<SegmentDesc>, row: nat, upTo: int, p: Pixel)
  {
    p.y == row && exists j, xc | InEvenSpan(active, j, xc) && j < upTo :: p.x == U32(xc)
  }

  /**
   * One row of `Polygon::draw` (src/polygon.rs:152-161): over the consecutive
   * pairs of the active list, the even-numbered ones (0 and 1, 2 and 3, ...)
   * are filled from the first edge's x up to, but not including, the
   * second's. `length - 1` wraps when the list is empty, hence the
   * precondition.
   */
  method RowSpans(active: seq<SegmentDesc>, row: nat) returns (pixels: seq<Pixel>)
    requires |active| >= 1
    ensures forall p :: p in pixels <==> Spanned(active, row, |active| - 1, p)
  {
    pixels := [];
    var x := 0;
    while x < |active| - 1
      invariant 0 <= x <= |active| - 1
      invariant forall p :: p in pixels <==> Spanned(active, row, x, p)
    {
      if x % 2 == 0 {
        var lo, hi := StartX(active[x]), StartX(active[x + 1]);
        var xc := lo;
        ghost var before := pixels;
        while xc < hi
          invariant if lo <= hi then lo <= xc <= hi else xc == lo
          invariant forall p :: p in pixels <==>
                      Spanned(active, row, x, p) || (p.y == row && exists c | lo <= c < xc :: p.x == U32(c))
          decreases hi - xc
        {
          pixels := pixels + [Pixel(U32(xc), row)];
          xc := xc + 1;
        }
        forall p | p in pixels
          ensures Spanned(active, row, x + 1, p)
        {
          if !Spanned(active, row, x, p) {
            var c :| lo <= c < xc && p.x == U32(c);
            assert InEvenSpan(active, x, c);
          }
        }
        forall p | Spanned(active, row, x + 1, p)
          ensures p in pixels
        {
          var j, c :| InEvenSpan(active, j, c) && j < x + 1 && p.x == U32(c);
          if j == x {
            assert lo <= c < hi;
          } else {
            assert Spanned(active, row, x, p);
          }
        }
      } else {
        forall p | Spanned(active, row, x + 1, p)
          ensures Spanned(active, row, x, p)
        {
          var j, c :| InEvenSpan(active, j, c) && j < x + 1 && p.x == U32(c);
          assert j != x;
        }
      }
      x := x + 1;
    }
  }

  /** The smallest vertex y (src/polygon.rs:147). */
  function MinY(points: seq<Vertex>): (m: nat)
    requires points != []
    ensures forall i | 0 <= i < |points| :: m <= points[i].y
    ensures exists i | 0 <= i < |points| :: m == points[i].y
  {
    if |points| == 1 then points[0].y
    else
      var m := MinY(points[..|points| - 1]);
      assert forall i | 0 <= i < |points| - 1 :: points[..|points| - 1][i] == points[i];
      if points[|points| - 1].y < m then points[|points| - 1].y else m
  }

  /** The largest vertex y (src/polygon.rs:148). */
  function MaxY(points: seq<Vertex>): (m: nat)
    requires points != []
    ensures forall i | 0 <= i < |points| :: points[i].y <= m
    ensures exists i | 0 <= i < |points| :: m == points[i].y
  {
    if |points| == 1 then points[0].y
    else
      var m := MaxY(points[..|points| - 1]);
      assert forall i | 0 <= i < |points| - 1 :: points[..|points| - 1][i] == points[i];
      if points[|points| - 1].y > m then points[|points| - 1].y else m
  }

  /** Side `i` spans row `r`: it starts on or below it and ends on or above it. */
  predicate SideSpans(points: seq<Vertex>, i: nat, r: nat)
    requires i < |points|
  {
    SideOf(points, i).yMin <= r <= SideOf(points, i).desc.yMax
  }

  /**
   * Walking the closed polygon forward `k` sides, from a vertex `a` at or
   * below row `r` to a vertex `b` at or above it, crosses `r` on some side.
   * The walk wraps past the last vertex at most once.
   */
  lemma {:induction false} WalkCrosses(points: seq<Vertex>, a: nat, b: nat, k: nat, r: nat)
    requires |points| >= 2 && a < |points| && b < |points|
    requires a + k == b || a + k == b + |points|
    requires points[a].y <= r <= points[b].y
    ensures exists i | 0 <= i < |points| :: SideSpans(points, i, r)
    decreases k
  {
    var c := NextIndex(|points|, a);
    if k == 0 {
      assert SideSpans(points, a, r);
    } else if points[c].y >= r {
      assert SideSpans(points, a, r);
    } else {
      WalkCrosses(points, c, b, k - 1, r);
    }
  }

  /**
   * Every row from the lowest to the highest vertex is spanned by some side,
   * so the active list is never empty while the fill runs.
   */
  lemma RowCovered(points: seq<Vertex>, r: nat)
    requires |points| >= 2 && MinY(points) <= r <= MaxY(points)
    ensures exists i | 0 <= i < |points| :: SideSpans(points, i, r)
  {
    var n := |points|;
    var a :| 0 <= a < n && points[a].y == MinY(points);
    var b :| 0 <= b < n && points[b].y == MaxY(points);
    var k := if b >= a then b - a else b + n - a;
    WalkCrosses(points, a, b, k, r);
  }

  /**
   * Side `i`'s edge as the fill carries it on `row`: its description advanced
   * once for each row since its lower one.
   */
  function SideAt(points: seq<Vertex>, i: nat, row: nat, reduceAtDenominator: bool): SegmentDesc
    requires i < |points| && SideOf(points, i).yMin <= row
  {
    AdvanceTimes(SideOf(points, i).desc, row - SideOf(points, i).yMin, reduceAtDenominator)
  }

  /**
   * The edges of the first `m` sides that span `row`, in side order, each as
   * carried on that row: what the row should be filled from.
   */
  function Crossing(points: seq<Vertex>, row: nat, m: nat, reduceAtDenominator: bool): seq<SegmentDesc>
    requires m <= |points|
  {
    if m == 0 then []
    else
      Crossing(points, row, m - 1, reduceAtDenominator)
      + (if SideSpans(points, m - 1, row) then [SideAt(points, m - 1, row, reduceAtDenominator)] else [])
  }

  /**
   * The edges of the first `m` sides that started below `row` and still
   * spanned the row before it, each advanced to `row`: what the active list
   * should hold when row `row` begins.
   */
  function Entering(points: seq<Vertex>, row: nat, m: nat, reduceAtDenominator: bool): seq<SegmentDesc>
    requires m <= |points|
  {
    if m == 0 then []
    else
      Entering(points, row, m - 1, reduceAtDenominator)
      + (if SideEnters(points, m - 1, row) then [SideAt(points, m - 1, row, reduceAtDenominator)] else [])
  }

  /** Side `i` started below `row` and spans the row before it. */
  predicate SideEnters(points: seq<Vertex>, i: nat, row: nat)
    requires i < |points|
  {
    SideOf(points, i).yMin < row <= SideOf(points, i).desc.yMax + 1
  }

  /** Advancing an edge any number of times keeps its end row. */
  lemma {:induction false} AdvanceTimesKeeps(e: SegmentDesc, k: nat, reduceAtDenominator: bool)
    ensures AdvanceTimes(e, k, reduceAtDenominator).yMax == e.yMax
  {
    if k > 0 {
      AdvanceTimesKeeps(e, k - 1, reduceAtDenominator);
    }
  }

  /** A side never starts below the lowest vertex. */
  lemma SideAboveMin(points: seq<Vertex>, i: nat)
    requires i < |points|
    ensures MinY(points) <= SideOf(points, i).yMin <= SideOf(points, i).desc.yMax
  {
    var j := NextIndex(|points|, i);
    assert MinY(points) <= points[i].y && MinY(points) <= points[j].y;
  }

  /** Before the lowest row nothing has entered the active list. */
  lemma {:induction false} EnteringFirst(points: seq<Vertex>, m: nat, reduceAtDenominator: bool)
    requires 0 < |points| && m <= |points|
    ensures Entering(points, MinY(points), m, reduceAtDenominator) == []
  {
    if m > 0 {
      EnteringFirst(points, m - 1, reduceAtDenominator);
      SideAboveMin(points, m - 1);
    }
  }

  /**
   * Of the edges entering `row`, removal keeps exactly those of the sides
   * still spanning it; with the bucket of the sides starting on `row` they
   * make up the sides crossing it.
   */
  lemma {:induction false} CrossingSplits(points: seq<Vertex>, row: nat, m: nat, reduceAtDenominator: bool)
    requires m <= |points|
    ensures multiset(Crossing(points, row, m, reduceAtDenominator))
            == multiset(Keep(Entering(points, row, m, reduceAtDenominator), row))
               + multiset(Bucket(Sides(points, m), row))
  {
    if m > 0 {
      var i := m - 1;
      CrossingSplits(points, row, i, reduceAtDenominator);
      var crossed, entered, bucketed := SidesStep(points, row, m, reduceAtDenominator);
      KeepAppend(Entering(points, row, i, reduceAtDenominator), entered, row);
      SideSplits(points, row, i, reduceAtDenominator);
      assert crossed == Keep(entered, row) + bucketed;
      SplitAppend(Crossing(points, row, i, reduceAtDenominator), crossed,
                  Keep(Entering(points, row, i, reduceAtDenominator), row), Keep(entered, row),
                  Bucket(Sides(points, i), row), bucketed);
    }
  }

  /** Splits of two lists into two parts each combine into a split of their concatenation. */
  lemma SplitAppend(c: seq<SegmentDesc>, c': seq<SegmentDesc>, k: seq<SegmentDesc>, k': seq<SegmentDesc>,
                    b: seq<SegmentDesc>, b': seq<SegmentDesc>)
    requires multiset(c) == multiset(k) + multiset(b)
    requires c' == k' + b'
    ensures multiset(c + c') == multiset(k + k') + multiset(b + b')
  {
  }

  /** What side `m - 1` adds to the crossing list, the entering list and the row's bucket. */
  lemma SidesStep(points: seq<Vertex>, row: nat, m: nat, reduceAtDenominator: bool)
    returns (crossed: seq<SegmentDesc>, entered: seq<SegmentDesc>, bucketed: seq<SegmentDesc>)
    requires 0 < m <= |points|
    ensures crossed == if SideSpans(points, m - 1, row) then [SideAt(points, m - 1, row, reduceAtDenominator)] else []
    ensures entered == if SideEnters(points, m - 1, row) then [SideAt(points, m - 1, row, reduceAtDenominator)] else []
    ensures bucketed == if SideOf(points, m - 1).yMin == row then [SideOf(points, m - 1).desc] else []
    ensures Crossing(points, row, m, reduceAtDenominator) == Crossing(points, row, m - 1, reduceAtDenominator) + crossed
    ensures Entering(points, row, m, reduceAtDenominator) == Entering(points, row, m - 1, reduceAtDenominator) + entered
    ensures Bucket(Sides(points, m), row) == Bucket(Sides(points, m - 1), row) + bucketed
  {
    crossed := if SideSpans(points, m - 1, row) then [SideAt(points, m - 1, row, reduceAtDenominator)] else [];
    entered := if SideEnters(points, m - 1, row) then [SideAt(points, m - 1, row, reduceAtDenominator)] else [];
    bucketed := if SideOf(points, m - 1).yMin == row then [SideOf(points, m - 1).desc] else [];
    assert Sides(points, m)[..m - 1] == Sides(points, m - 1);
  }

  /**
   * Side `i` crosses `row` exactly when it either entered the row and is
   * kept by removal, or starts on the row and is in its bucket.
   */
  lemma SideSplits(points: seq<Vertex>, row: nat, i: nat, reduceAtDenominator: bool)
    requires i < |points|
    ensures (if SideSpans(points, i, row) then [SideAt(points, i, row, reduceAtDenominator)] else [])
            == Keep(if SideEnters(points, i, row) then [SideAt(points, i, row, reduceAtDenominator)] else [], row)
               + (if SideOf(points, i).yMin == row then [SideOf(points, i).desc] else [])
  {
    var e := SideOf(points, i);
    SideAboveMin(points, i);
    if e.yMin <= row {
      AdvanceTimesKeeps(e.desc, row - e.yMin, reduceAtDenominator);
      var one := [SideAt(points, i, row, reduceAtDenominator)];
      assert Keep(one, row) == Keep([], row) + (if one[0].yMax >= row then one else []) by {
        assert one[..0] == [];
      }
    }
  }

  /** Removal sees only an edge's end row, so it maps permutations to permutations. */
  lemma KeepPermutes(a: seq<SegmentDesc>, b: seq<SegmentDesc>, row: nat)
    requires multiset(a) == multiset(b)
    ensures multiset(Keep(a, row)) == multiset(Keep(b, row))
  {
    KeepCounts(a, row);
    KeepCounts(b, row);
    assert forall e :: multiset(Keep(a, row))[e] == multiset(Keep(b, row))[e];
  }

  /** The table's row holds a permutation of the row's bucket, or nothing when the bucket is empty. */
  lemma TableRow(points: seq<Vertex>, row: nat)
    requires |points| >= 2
    ensures multiset(if row in FromPoints(points) then FromPoints(points)[row] else [])
            == multiset(Bucket(Sides(points, |points|), row))
  {
    var es := Sides(points, |points|);
    BucketedRows(es);
    if row in FromPoints(points) {
      assert FromPoints(points)[row] == SortByX(Bucketed(es)[row]);
    } else {
      assert row !in Bucketed(es);
    }
  }

  /**
   * After the ended edges are dropped and the row's bucket is added to an
   * active list holding exactly the entering edges, the list holds exactly
   * the edges of the sides crossing the row, each where the fill has
   * carried it.
   */
  lemma RowActive(points: seq<Vertex>, table: EdgeTable, active: seq<SegmentDesc>, row: nat,
                  reduceAtDenominator: bool)
    requires |points| >= 2 && table == FromPoints(points)
    requires multiset(active) == multiset(Entering(points, row, |points|, reduceAtDenominator))
    ensures multiset(InsertRow(row, table, Keep(active, row)))
            == multiset(Crossing(points, row, |points|, reduceAtDenominator))
  {
    CrossingSplits(points, row, |points|, reduceAtDenominator);
    KeepPermutes(active, Entering(points, row, |points|, reduceAtDenominator), row);
    TableRow(points, row);
  }

  /** Every edge of `edges` advanced by one row, in order. */
  function AdvanceAll(edges: seq<SegmentDesc>, reduceAtDenominator: bool): (r: seq<SegmentDesc>)
    ensures |r| == |edges|
  {
    if edges == [] then []
    else AdvanceAll(edges[..|edges| - 1], reduceAtDenominator) + [Advance(edges[|edges| - 1], reduceAtDenominator)]
  }

  /** The `i`-th advanced edge is the advance of the `i`-th edge. */
  lemma {:induction false} AdvanceAllAt(edges: seq<SegmentDesc>, reduceAtDenominator: bool)
    ensures forall i | 0 <= i < |edges| :: AdvanceAll(edges, reduceAtDenominator)[i] == Advance(edges[i], reduceAtDenominator)
  {
    if edges != [] {
      var init := edges[..|edges| - 1];
      AdvanceAllAt(init, reduceAtDenominator);
      assert forall i | 0 <= i < |init| :: init[i] == edges[i];
    }
  }

  /** Advancing works edge by edge. */
  lemma {:induction false} AdvanceAllAppend(a: seq<SegmentDesc>, b: seq<SegmentDesc>, reduceAtDenominator: bool)
    ensures AdvanceAll(a + b, reduceAtDenominator) == AdvanceAll(a, reduceAtDenominator) + AdvanceAll(b, reduceAtDenominator)
  {
    if b == [] {
      assert a + b == a;
    } else {
      var b' := b[..|b| - 1];
      assert (a + b)[..|a + b| - 1] == a + b';
      AdvanceAllAppend(a, b', reduceAtDenominator);
    }
  }

  /** Advancing two permutations of one list gives permutations of each other. */
  lemma {:induction false} AdvancePermutes(a: seq<SegmentDesc>, b: seq<SegmentDesc>, reduceAtDenominator: bool)
    requires multiset(a) == multiset(b)
    ensures multiset(AdvanceAll(a, reduceAtDenominator)) == multiset(AdvanceAll(b, reduceAtDenominator))
    decreases |a|
  {
    if a == [] {
      assert |b| == |multiset(b)| == 0;
    } else {
      var x, a' := a[|a| - 1], a[..|a| - 1];
      assert a == a' + [x];
      assert x in multiset(b);
      var j :| 0 <= j < |b| && b[j] == x;
      var rest := AdvanceRemove(b, j, reduceAtDenominator);
      assert multiset(a) == multiset(a') + multiset{x};
      forall e
        ensures multiset(rest)[e] == multiset(a')[e]
      {
        assert multiset(a)[e] == multiset(a')[e] + multiset{x}[e];
        assert multiset(b)[e] == multiset(rest)[e] + multiset{x}[e];
      }
      AdvancePermutes(a', rest, reduceAtDenominator);
      AdvanceAllAppend(a', [x], reduceAtDenominator);
    }
  }

  /** Taking out the `j`-th edge takes out its advanced copy. */
  lemma AdvanceRemove(b: seq<SegmentDesc>, j: nat, reduceAtDenominator: bool) returns (rest: seq<SegmentDesc>)
    requires j < |b|
    ensures |rest| == |b| - 1
    ensures multiset(b) == multiset(rest) + multiset{b[j]}
    ensures multiset(AdvanceAll(b, reduceAtDenominator))
            == multiset(AdvanceAll(rest, reduceAtDenominator)) + multiset{Advance(b[j], reduceAtDenominator)}
  {
    var lo, hi := b[..j], b[j + 1..];
    rest := lo + hi;
    assert b == lo + [b[j]] + hi;
    AdvanceAllAppend(lo + [b[j]], hi, reduceAtDenominator);
    AdvanceAllAppend(lo, [b[j]], reduceAtDenominator);
    AdvanceAllAppend(lo, hi, reduceAtDenominator);
  }

  /**
   * Advancing the edges that cross `row` gives exactly the edges entering
   * the next row, in the same order.
   */
  lemma {:induction false} AdvanceCrossing(points: seq<Vertex>, row: nat, m: nat, reduceAtDenominator: bool)
    requires m <= |points|
    ensures AdvanceAll(Crossing(points, row, m, reduceAtDenominator), reduceAtDenominator)
            == Entering(points, row + 1, m, reduceAtDenominator)
  {
    if m > 0 {
      AdvanceCrossing(points, row, m - 1, reduceAtDenominator);
      var crossed := if SideSpans(points, m - 1, row) then [SideAt(points, m - 1, row, reduceAtDenominator)] else [];
      var entered := if SideEnters(points, m - 1, row + 1) then [SideAt(points, m - 1, row + 1, reduceAtDenominator)] else [];
      AdvanceAllAppend(Crossing(points, row, m - 1, reduceAtDenominator), crossed, reduceAtDenominator);
      assert SideEnters(points, m - 1, row + 1) == SideSpans(points, m - 1, row);
      if SideSpans(points, m - 1, row) {
        assert SideAt(points, m - 1, row + 1, reduceAtDenominator)
               == Advance(SideAt(points, m - 1, row, reduceAtDenominator), reduceAtDenominator);
      }
      assert AdvanceAll(crossed, reduceAtDenominator) == entered;
    }
  }

  /** Advancing a list holding exactly the edges crossing `row` gives the edges entering the next row. */
  lemma NextEntering(points: seq<Vertex>, current: seq<SegmentDesc>, row: nat, reduceAtDenominator: bool)
    requires multiset(current) == multiset(Crossing(points, row, |points|, reduceAtDenominator))
    ensures multiset(AdvanceAll(current, reduceAtDenominator))
            == multiset(Entering(points, row + 1, |points|, reduceAtDenominator))
  {
    AdvancePermutes(current, Crossing(points, row, |points|, reduceAtDenominator), reduceAtDenominator);
    AdvanceCrossing(points, row, |points|, reduceAtDenominator);
  }

  /** Every side spanning `row` contributes its carried edge to the crossing list. */
  lemma {:induction false} CrossingHas(points: seq<Vertex>, row: nat, m: nat, i: nat, reduceAtDenominator: bool)
    requires i < m <= |points| && SideSpans(points, i, row)
    ensures SideAt(points, i, row, reduceAtDenominator) in Crossing(points, row, m, reduceAtDenominator)
  {
    if i < m - 1 {
      CrossingHas(points, row, m - 1, i, reduceAtDenominator);
    }
  }

  /**
   * One pass of the row loop of `Polygon::draw` (src/polygon.rs:150-162):
   * drop the edges that ended, add those that start on the row, fill its
   * even spans and advance every edge. If `active` holds exactly the edges
   * entering the row, then `current`, the list the row is filled from,
   * holds exactly the edges of the sides crossing it, the spans are exactly
   * its even spans, and `next` holds exactly the edges entering the next row.
   */
  method ScanRow(points: seq<Vertex>, table: EdgeTable, active: seq<SegmentDesc>, row: nat,
                 reduceAtDenominator: bool)
    returns (next: seq<SegmentDesc>, current: seq<SegmentDesc>, spans: seq<Pixel>)
    requires |points| >= 2 && table == FromPoints(points)
    requires MinY(points) <= row <= MaxY(points)
    requires multiset(active) == multiset(Entering(points, row, |points|, reduceAtDenominator))
    ensures current == InsertRow(row, table, Keep(active, row))
    ensures multiset(current) == multiset(Crossing(points, row, |points|, reduceAtDenominator))
    ensures |current| >= 1
    ensures forall p :: p in spans <==> Spanned(current, row, |current| - 1, p)
    ensures next == AdvanceAll(current, reduceAtDenominator)
    ensures multiset(next) == multiset(Entering(points, row + 1, |points|, reduceAtDenominator))
  {
    var kept := RemoveLowerEdges(active, row);
    current := InsertRow(row, table, kept);
    RowActive(points, table, active, row, reduceAtDenominator);
    RowCovered(points, row);
    var i :| 0 <= i < |points| && SideSpans(points, i, row);
    CrossingHas(points, row, |points|, i, reduceAtDenominator);
    assert SideAt(points, i, row, reduceAtDenominator) in multiset(current);
    spans := RowSpans(current, row);
    next := IncrementRow(current, reduceAtDenominator);
    NextEntering(points, current, row, reduceAtDenominator);
  }

  /**
   * `pixels` are exactly the even spans of the active lists `actives`, the
   * `k`-th of which fills row `base + k`.
   */
  ghost predicate FilledFrom(pixels: seq<Pixel>, actives: seq<seq<SegmentDesc>>, base: nat)
  {
    forall p :: p in pixels <==> FilledBy(actives, base, p)
  }

  /** `p` lies on one of the rows of `actives` and in an even span of that row's list. */
  ghost predicate FilledBy(actives: seq<seq<SegmentDesc>>, base: nat, p: Pixel)
  {
    && base <= p.y < base + |actives|
    && Spanned(actives[p.y - base], p.y, |actives[p.y - base]| - 1, p)
  }

  /**
   * The active lists follow the source's loop: the first is the lowest
   * row's bucket inserted into an empty list, and each later one is the
   * previous one advanced, with the ended edges removed and its row's
   * bucket inserted.
   */
  ghost predicate Chained(table: EdgeTable, actives: seq<seq<SegmentDesc>>, base: nat, reduceAtDenominator: bool)
    decreases |actives|
  {
    if actives == [] then true
    else
      var earlier := actives[..|actives| - 1];
      var row := base + |earlier|;
      && Chained(table, earlier, base, reduceAtDenominator)
      && actives[|actives| - 1] == InsertRow(row, table, Keep(Previous(earlier, reduceAtDenominator), row))
  }

  /** The active list the row after `actives` starts from: the last list advanced, or nothing before the first row. */
  function Previous(actives: seq<seq<SegmentDesc>>, reduceAtDenominator: bool): (r: seq<SegmentDesc>)
    ensures actives == [] ==> r == []
    ensures actives != [] ==> |r| == |actives[|actives| - 1]|
  {
    if actives == [] then [] else AdvanceAll(actives[|actives| - 1], reduceAtDenominator)
  }

  /** The `k`-th active list holds exactly the edges of the sides crossing row `base + k`. */
  ghost predicate CrossingRows(points: seq<Vertex>, actives: seq<seq<SegmentDesc>>, base: nat, reduceAtDenominator: bool)
  {
    forall k | 0 <= k < |actives| ::
      multiset(actives[k]) == multiset(Crossing(points, base + k, |points|, reduceAtDenominator))
  }

  /** Filling one more row from `current` extends the filled rows by that row's spans. */
  lemma FilledExtend(pixels: seq<Pixel>, actives: seq<seq<SegmentDesc>>, base: nat, row: nat,
                     current: seq<SegmentDesc>, spans: seq<Pixel>)
    requires FilledFrom(pixels, actives, base)
    requires row == base + |actives|
    requires forall p :: p in spans <==> Spanned(current, row, |current| - 1, p)
    ensures FilledFrom(pixels + spans, actives + [current], base)
  {
    var pixels', actives' := pixels + spans, actives + [current];
    forall p
      ensures p in pixels' <==> FilledBy(actives', base, p)
    {
      if base <= p.y < row {
        assert actives'[p.y - base] == actives[p.y - base];
      } else if p.y == row {
        assert actives'[p.y - base] == current;
      }
    }
  }

  /** Appending the list the next row is filled from, as the loop computes it, keeps the chain. */
  lemma ChainExtend(table: EdgeTable, actives: seq<seq<SegmentDesc>>, base: nat, row: nat,
                    active: seq<SegmentDesc>, current: seq<SegmentDesc>, reduceAtDenominator: bool)
    requires Chained(table, actives, base, reduceAtDenominator)
    requires row == base + |actives|
    requires active == Previous(actives, reduceAtDenominator)
    requires current == InsertRow(row, table, Keep(active, row))
    ensures Chained(table, actives + [current], base, reduceAtDenominator)
  {
    ChainedSnoc(table, actives, base, current, reduceAtDenominator);
  }

  /** One more list keeps the chain exactly when it is the next row's bucket inserted into the previous list advanced. */
  lemma ChainedSnoc(table: EdgeTable, actives: seq<seq<SegmentDesc>>, base: nat, current: seq<SegmentDesc>,
                    reduceAtDenominator: bool)
    ensures Chained(table, actives + [current], base, reduceAtDenominator) <==>
              && Chained(table, actives, base, reduceAtDenominator)
              && current == InsertRow(base + |actives|, table, Keep(Previous(actives, reduceAtDenominator), base + |actives|))
  {
    var actives' := actives + [current];
    assert actives'[..|actives'| - 1] == actives;
    assert actives'[|actives'| - 1] == current;
  }

  /** Appending the next row's crossing list keeps every list a crossing list. */
  lemma CrossingRowsExtend(points: seq<Vertex>, actives: seq<seq<SegmentDesc>>, base: nat, row: nat,
                           current: seq<SegmentDesc>, reduceAtDenominator: bool)
    requires CrossingRows(points, actives, base, reduceAtDenominator)
    requires row == base + |actives|
    requires multiset(current) == multiset(Crossing(points, row, |points|, reduceAtDenominator))
    ensures CrossingRows(points, actives + [current], base, reduceAtDenominator)
  {
    var actives' := actives + [current];
    forall k | 0 <= k < |actives'|
      ensures multiset(actives'[k]) == multiset(Crossing(points, base + k, |points|, reduceAtDenominator))
    {
      if k < |actives| {
        assert actives'[k] == actives[k];
      }
    }
  }

  /** Every side spanning `row` has its carried edge in `active`. */
  ghost predicate Carries(points: seq<Vertex>, active: seq<SegmentDesc>, row: nat, reduceAtDenominator: bool)
  {
    forall i | 0 <= i < |points| && SideSpans(points, i, row) :: SideAt(points, i, row, reduceAtDenominator) in active
  }

  /** The `k`-th active list carries every side spanning row `base + k`. */
  ghost predicate CarriedRows(points: seq<Vertex>, actives: seq<seq<SegmentDesc>>, base: nat, reduceAtDenominator: bool)
  {
    forall k | 0 <= k < |actives| :: Carries(points, actives[k], base + k, reduceAtDenominator)
  }

  /** A list holding exactly the crossing edges holds every spanning side's carried edge. */
  lemma CrossingRowsCarry(points: seq<Vertex>, actives: seq<seq<SegmentDesc>>, base: nat, reduceAtDenominator: bool)
    requires CrossingRows(points, actives, base, reduceAtDenominator)
    ensures CarriedRows(points, actives, base, reduceAtDenominator)
  {
    forall k | 0 <= k < |actives|
      ensures Carries(points, actives[k], base + k, reduceAtDenominator)
    {
      var row := base + k;
      forall i | 0 <= i < |points| && SideSpans(points, i, row)
        ensures SideAt(points, i, row, reduceAtDenominator) in actives[k]
      {
        CrossingHas(points, row, |points|, i, reduceAtDenominator);
        assert SideAt(points, i, row, reduceAtDenominator) in multiset(actives[k]);
      }
    }
  }

  /**
   * What the row loop keeps before row `row`: one list per row filled so
   * far, chained as the source computes them and each holding exactly its
   * row's crossing edges; `active`, the last one advanced, holds exactly the
   * edges entering `row`; and the pixels are exactly the even spans so far.
   * The conjunction is compared with `true` so that the verifier checks the
   * state as one fact instead of conjunct by conjunct at every use.
   */
  ghost predicate FillState(points: seq<Vertex>, table: EdgeTable, reduceAtDenominator: bool, row: nat,
                            active: seq<SegmentDesc>, actives: seq<seq<SegmentDesc>>, pixels: seq<Pixel>)
    requires points != []
  {
    (&& |actives| == row - MinY(points)
     && active == Previous(actives, reduceAtDenominator)
     && multiset(active) == multiset(Entering(points, row, |points|, reduceAtDenominator))
     && Chained(table, actives, MinY(points), reduceAtDenominator)
     && CrossingRows(points, actives, MinY(points), reduceAtDenominator)
     && FilledFrom(pixels, actives, MinY(points))) == true
  }

  /** One pass of the row loop, as `ScanRow` describes it, keeps the loop state. */
  lemma FillExtend(points: seq<Vertex>, table: EdgeTable, reduceAtDenominator: bool, row: nat,
                   active: seq<SegmentDesc>, actives: seq<seq<SegmentDesc>>, pixels: seq<Pixel>,
                   next: seq<SegmentDesc>, current: seq<SegmentDesc>, spans: seq<Pixel>)
    requires points != [] && FillState(points, table, reduceAtDenominator, row, active, actives, pixels)
    requires current == InsertRow(row, table, Keep(active, row))
    requires multiset(current) == multiset(Crossing(points, row, |points|, reduceAtDenominator))
    requires forall p :: p in spans <==> Spanned(current, row, |current| - 1, p)
    requires next == AdvanceAll(current, reduceAtDenominator)
    requires multiset(next) == multiset(Entering(points, row + 1, |points|, reduceAtDenominator))
    ensures FillState(points, table, reduceAtDenominator, row + 1, next, actives + [current], pixels + spans)
  {
    var base := MinY(points);
    ChainExtend(table, actives, base, row, active, current, reduceAtDenominator);
    CrossingRowsExtend(points, actives, base, row, current, reduceAtDenominator);
    FilledExtend(pixels, actives, base, row, current, spans);
    assert (actives + [current])[|actives + [current]| - 1] == current;
  }

  /** Before the lowest row nothing is active, filled or written. */
  lemma FillStart(points: seq<Vertex>, table: EdgeTable, reduceAtDenominator: bool)
    requires points != []
    ensures FillState(points, table, reduceAtDenominator, MinY(points), [], [], [])
  {
    EnteringFirst(points, |points|, reduceAtDenominator);
  }

  /** One pass of the row loop of `Polygon::draw` (src/polygon.rs:150-162), keeping the loop state. */
  method FillRow(points: seq<Vertex>, table: EdgeTable, reduceAtDenominator: bool, row: nat,
                 active: seq<SegmentDesc>, actives: seq<seq<SegmentDesc>>, pixels: seq<Pixel>)
    returns (next: seq<SegmentDesc>, actives': seq<seq<SegmentDesc>>, pixels': seq<Pixel>)
    requires |points| >= 2 && table == FromPoints(points)
    requires MinY(points) <= row <= MaxY(points)
    requires FillState(points, table, reduceAtDenominator, row, active, actives, pixels)
    ensures FillState(points, table, reduceAtDenominator, row + 1, next, actives', pixels')
  {
    var current, spans;
    next, current, spans := ScanRow(points, table, active, row, reduceAtDenominator);
    FillExtend(points, table, reduceAtDenominator, row, active, actives, pixels, next, current, spans);
    actives', pixels' := actives + [current], pixels + spans;
  }

  /**
   * `Polygon::draw` (src/polygon.rs:143-164): the scan-line loop over the
   * rows from the lowest to the highest vertex. `actives[k]` is the active
   * list row `MinY + k` is filled from. The lists follow the source's loop,
   * each holds exactly the edges of the sides crossing its row (so every
   * such side's edge, advanced once per row since its lower row), and the
   * pixels written are exactly the even spans of those lists. With
   * `reduceAtDenominator` false the advance is the source's; true gives the
   * corrected fill. With fewer than two vertices the source panics (no
   * vertex for `unwrap`, or an empty active list at `length - 1`), hence
   * the precondition.
   */
  method Fill(points: seq<Vertex>, reduceAtDenominator: bool) returns (pixels: seq<Pixel>, actives: seq<seq<SegmentDesc>>)
    requires |points| >= 2
    ensures |actives| == MaxY(points) - MinY(points) + 1
    ensures Chained(FromPoints(points), actives, MinY(points), reduceAtDenominator)
    ensures CrossingRows(points, actives, MinY(points), reduceAtDenominator)
    ensures CarriedRows(points, actives, MinY(points), reduceAtDenominator)
    ensures FilledFrom(pixels, actives, MinY(points))
  {
    var table := FromPoints(points);
    var row, active := MinY(points), [];
    pixels, actives := [], [];
    FillStart(points, table, reduceAtDenominator);
    while row < MaxY(points) + 1
      invariant MinY(points) <= row <= MaxY(points) + 1
      invariant FillState(points, table, reduceAtDenominator, row, active, actives, pixels)
    {
      active, actives, pixels := FillRow(points, table, reduceAtDenominator, row, active, actives, pixels);
      row := row + 1;
    }
    CrossingRowsCarry(points, actives, MinY(points), reduceAtDenominator);
  }
}
