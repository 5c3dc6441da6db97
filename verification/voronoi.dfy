/** lab4/voronoi.py: Voronoi cells by half-plane clipping. Every cell starts
    as the image rectangle and is clipped by the perpendicular bisector of
    its generator and each other generator. Lines are `a*x + b*y + c = 0`;
    a division by zero inside the source (caught as ZeroDivisionError)
    becomes `None`. */
module Voronoi {
  import opened Geometry
  import opened Ordering
  import opened Results

  datatype Line = Line(a: real, b: real, c: real)

  /** A polygon, as the list of its vertices. */
  datatype Cell = Cell(points: seq<Point>)

  /** `Line.diversion`: the signed value of the line's equation at `p`. */
  function Diversion(l: Line, p: Point): real
  {
    l.a * p.x + l.b * p.y + l.c
  }

  /** The point a fraction `s` of the way from `p0` to `p1`. */
  function Lerp(p0: Point, p1: Point, s: real): Point
  {
    Point(p0.x + s * (p1.x - p0.x), p0.y + s * (p1.y - p0.y))
  }

  /** The line's equation is affine along a segment. */
  lemma DiversionAffine(l: Line, p0: Point, p1: Point, s: real)
    ensures Diversion(l, Lerp(p0, p1, s)) == (1.0 - s) * Diversion(l, p0) + s * Diversion(l, p1)
  {
  }

  function Midpoint(p0: Point, p1: Point): Point
  {
    Point((p0.x + p1.x) / 2.0, (p0.y + p1.y) / 2.0)
  }

  /** `Line.separating`: the perpendicular bisector of p0 and p1, oriented
      so that p0's side is negative. */
  function Separating(p0: Point, p1: Point): (l: Line)
    ensures Diversion(l, Midpoint(p0, p1)) == 0.0
    ensures Diversion(l, p0) <= 0.0 <= Diversion(l, p1)
    ensures p0 != p1 ==> Diversion(l, p0) < 0.0 < Diversion(l, p1)
    ensures Diversion(l, p0) == -Diversion(l, p1)
    ensures p0 == p1 ==> l == Line(0.0, 0.0, 0.0)
  {
    var a := p1.x - p0.x;
    var b := p1.y - p0.y;
    var l := Line(a, b, -(a * (p0.x + p1.x) + b * (p0.y + p1.y)) / 2.0);
    SeparatingDiversion(p0, p1, l, p0);
    SeparatingDiversion(p0, p1, l, p1);
    Dist2NonNegative(p0, p1);
    assert p0 != p1 ==> Dist2(p0, p1) > 0.0 by {
      if p0 != p1 {
        Dist2Positive(p0, p1);
      }
    }
    l
  }

  lemma Dist2NonNegative(p: Point, q: Point)
    ensures Dist2(p, q) >= 0.0
    ensures Dist2(p, q) == Dist2(q, p)
    ensures Dist2(p, p) == 0.0
  {
  }

  /** The bisector's equation at `q` is half the difference of the squared
      distances from `q` to the two points. */
  lemma SeparatingDiversion(p0: Point, p1: Point, l: Line, q: Point)
    requires l.a == p1.x - p0.x && l.b == p1.y - p0.y
    requires l.c == -(l.a * (p0.x + p1.x) + l.b * (p0.y + p1.y)) / 2.0
    ensures Diversion(l, q) == (Dist2(q, p0) - Dist2(q, p1)) / 2.0
  {
  }

  /** `SeparatingDiversion` for the line `Separating` builds; a point is on
      p0's side exactly when it is at least as close to p0 as to p1. */
  lemma SeparatingSide(p0: Point, p1: Point, q: Point)
    ensures Diversion(Separating(p0, p1), q) == (Dist2(q, p0) - Dist2(q, p1)) / 2.0
    ensures Diversion(Separating(p0, p1), q) <= 0.0 <==> Dist2(q, p0) <= Dist2(q, p1)
    ensures Diversion(Separating(p0, p1), q) == 0.0 <==> Dist2(q, p0) == Dist2(q, p1)
  {
    SeparatingDiversion(p0, p1, Separating(p0, p1), q);
  }

  /** `Line.connecting`: the line through two points, with the vertical and
      horizontal cases special-cased. */
  function Connecting(p0: Point, p1: Point): (l: Line)
    ensures Diversion(l, p0) == 0.0 && Diversion(l, p1) == 0.0
    ensures l.a != 0.0 || l.b != 0.0
  {
    if p0.x == p1.x then Line(1.0, 0.0, -p0.x)
    else if p0.y == p1.y then Line(0.0, 1.0, -p0.y)
    else
      var a := 1.0 / (p1.x - p0.x);
      var b := -1.0 / (p1.y - p0.y);
      assert a * (p1.x - p0.x) == 1.0;
      assert b * (p1.y - p0.y) == -1.0;
      var l := Line(a, b, -(a * p0.x + b * p0.y));
      assert Diversion(l, p1) == a * (p1.x - p0.x) + b * (p1.y - p0.y);
      l
  }

  /** `Line.get_x`: the x of the line's point at height `y`; `None` when the
      division by `a` fails. */
  function GetX(l: Line, y: real): (r: Option<real>)
    ensures r.Some? <==> l.a != 0.0
    ensures r.Some? ==> Diversion(l, Point(r.value, y)) == 0.0
  {
    if l.a == 0.0 then None
    else
      var x := -(l.b * y + l.c) / l.a;
      assert l.a * x == -(l.b * y + l.c);
      Some(x)
  }

  /** `Line.get_y`: the y of the line's point at abscissa `x`; `None` when
      the division by `b` fails. */
  function GetY(l: Line, x: real): (r: Option<real>)
    ensures r.Some? <==> l.b != 0.0
    ensures r.Some? ==> Diversion(l, Point(x, r.value)) == 0.0
  {
    if l.b == 0.0 then None
    else
      var y := -(l.a * x + l.c) / l.b;
      assert l.b * y == -(l.a * x + l.c);
      Some(y)
  }

  /** `diversion` is `b` times the vertical offset of `p` from the line's
      point with the same x, and `a` times the horizontal offset from the
      line's point with the same y. */
  lemma DiversionOffsets(l: Line, p: Point)
    ensures GetY(l, p.x).Some? ==> Diversion(l, p) == l.b * (p.y - GetY(l, p.x).value)
    ensures GetX(l, p.y).Some? ==> Diversion(l, p) == l.a * (p.x - GetX(l, p.y).value)
  {
  }

  /** `Line.intersection`, branch for branch. Each division by zero ends the
      computation with `None`. */
  function Intersection(l: Line, m: Line): (r: Option<Point>)
    ensures r.None? <==> l.a * m.b == l.b * m.a
    ensures r.Some? ==> Diversion(l, r.value) == 0.0 && Diversion(m, r.value) == 0.0
  {
    if l.a == 0.0 then
      match GetY(l, 0.0)
      case None => None
      case Some(y) =>
        match GetX(m, y)
        case None => None
        case Some(x) => Some(Point(x, y))
    else if l.b == 0.0 then
      match GetX(l, 0.0)
      case None => None
      case Some(x) =>
        match GetY(m, x)
        case None => None
        case Some(y) => Some(Point(x, y))
    else
      var den := m.b - l.b * m.a / l.a;
      assert den * l.a == l.a * m.b - l.b * m.a;
      if den == 0.0 then None
      else
        var y := ((m.a * l.c) / l.a - m.c) / den;
        match GetX(l, y)
        case None => None
        case Some(x) =>
          IntersectionGeneral(l, m, den, x, y);
          Some(Point(x, y))
  }

  /** The general branch of `Line.intersection` lands on both lines. */
  lemma IntersectionGeneral(l: Line, m: Line, den: real, x: real, y: real)
    requires l.a != 0.0 && den != 0.0
    requires den == m.b - l.b * m.a / l.a
    requires y == ((m.a * l.c) / l.a - m.c) / den
    requires Diversion(l, Point(x, y)) == 0.0
    ensures Diversion(m, Point(x, y)) == 0.0
  {
    var t := m.a / l.a;
    assert m.a == t * l.a;
    assert (m.a * l.c) / l.a == t * l.c;
    assert den == m.b - l.b * t;
    assert y * den == t * l.c - m.c;
    assert l.a * x == -(l.b * y + l.c);
    calc {
      Diversion(m, Point(x, y));
      m.a * x + m.b * y + m.c;
      t * (l.a * x) + m.b * y + m.c;
      t * (-(l.b * y + l.c)) + m.b * y + m.c;
      y * (m.b - l.b * t) - t * l.c + m.c;
      y * den - t * l.c + m.c;
      0.0;
    }
  }

  function Min(a: real, b: real): real { if a <= b then a else b }
  function Max(a: real, b: real): real { if a <= b then b else a }

  /** `x` is inside the closed bounding box of the segment p0 p1. */
  predicate InBox(x: Point, p0: Point, p1: Point)
  {
    Min(p0.x, p1.x) <= x.x <= Max(p0.x, p1.x) && Min(p0.y, p1.y) <= x.y <= Max(p0.y, p1.y)
  }

  /** One pass of the loop of `Cell.get_intersections`: where `line` meets
      edge `i`, the wrap-around edge included, if it meets it within the
      edge's bounding box. */
  function EdgeHit(pts: seq<Point>, line: Line, i: nat): (r: Option<Point>)
    requires i < |pts|
    ensures r.Some? ==> Diversion(line, r.value) == 0.0
    ensures r.Some? ==> InBox(r.value, pts[i], pts[(i + 1) % |pts|])
    ensures r.Some? ==> Diversion(Connecting(pts[i], pts[(i + 1) % |pts|]), r.value) == 0.0
  {
    var p0, p1 := pts[i], pts[(i + 1) % |pts|];
    match Intersection(line, Connecting(p0, p1))
    case None => None
    case Some(x) =>
      if x.x < Min(p0.x, p1.x) || Max(p0.x, p1.x) < x.x then None
      else if x.y < Min(p0.y, p1.y) || Max(p0.y, p1.y) < x.y then None
      else Some(x)
  }

  /** A value between `lo` and `hi` is a fraction of the way from one to
      the other. */
  lemma Fraction(lo: real, hi: real, t: real) returns (s: real)
    requires lo != hi
    requires Min(lo, hi) <= t <= Max(lo, hi)
    ensures 0.0 <= s <= 1.0 && t == lo + s * (hi - lo)
    ensures s == (t - lo) / (hi - lo)
  {
    var d := hi - lo;
    s := (t - lo) / d;
    assert s * d == t - lo;
    if d > 0.0 {
      UnitRatio(t - lo, d, s);
    } else {
      assert s * (lo - hi) == lo - t;
      UnitRatio(lo - t, lo - hi, s);
    }
  }

  /** `n / d` lies in [0, 1] when `n` does in [0, d]. */
  lemma UnitRatio(n: real, d: real, s: real)
    requires d > 0.0 && 0.0 <= n <= d && s * d == n
    ensures 0.0 <= s <= 1.0
  {
    assert s == n / d;
    assert (1.0 - s) * d == d - n;
  }

  /** A point on the line through p0 and p1 and inside their bounding box
      lies on the segment between them. */
  lemma OnSegment(p0: Point, p1: Point, x: Point) returns (s: real)
    requires Diversion(Connecting(p0, p1), x) == 0.0
    requires InBox(x, p0, p1)
    ensures 0.0 <= s <= 1.0 && x == Lerp(p0, p1, s)
  {
    if p0.x == p1.x {
      s := OnVerticalSegment(p0, p1, x);
    } else if p0.y == p1.y {
      s := OnHorizontalSegment(p0, p1, x);
    } else {
      s := Fraction(p0.x, p1.x, x.x);
      OnSlantedLine(p0, p1, x, s);
    }
  }

  lemma OnVerticalSegment(p0: Point, p1: Point, x: Point) returns (s: real)
    requires p0.x == p1.x
    requires Diversion(Connecting(p0, p1), x) == 0.0
    requires InBox(x, p0, p1)
    ensures 0.0 <= s <= 1.0 && x == Lerp(p0, p1, s)
  {
    assert x.x == p0.x;
    if p0.y == p1.y {
      s := 0.0;
    } else {
      s := Fraction(p0.y, p1.y, x.y);
    }
    assert s * (p1.x - p0.x) == 0.0;
  }

  lemma OnHorizontalSegment(p0: Point, p1: Point, x: Point) returns (s: real)
    requires p0.x != p1.x && p0.y == p1.y
    requires Diversion(Connecting(p0, p1), x) == 0.0
    requires InBox(x, p0, p1)
    ensures 0.0 <= s <= 1.0 && x == Lerp(p0, p1, s)
  {
    assert x.y == p0.y;
    s := Fraction(p0.x, p1.x, x.x);
    assert s * (p1.y - p0.y) == 0.0;
  }

  /** On a line that is neither vertical nor horizontal, the fraction along
      x equals the fraction along y. */
  lemma OnSlantedLine(p0: Point, p1: Point, x: Point, s: real)
    requires p0.x != p1.x && p0.y != p1.y
    requires Diversion(Connecting(p0, p1), x) == 0.0
    requires x.x == p0.x + s * (p1.x - p0.x)
    ensures x.y == p0.y + s * (p1.y - p0.y)
  {
    var dx, dy := p1.x - p0.x, p1.y - p0.y;
    var a, b := 1.0 / dx, -1.0 / dy;
    assert a * dx == 1.0 && b * dy == -1.0;
    assert a * (x.x - p0.x) + b * (x.y - p0.y) == 0.0;
    assert a * (x.x - p0.x) == s by {
      assert a * (s * dx) == s * (a * dx);
    }
    assert b * (x.y - p0.y) == -s;
    assert x.y - p0.y == s * dy by {
      assert dy * (b * (x.y - p0.y)) == (dy * b) * (x.y - p0.y);
      assert dy * b == -1.0;
    }
  }

  /** `d` and `pd` are of strictly opposite signs. */
  predicate Opposite(pd: real, d: real)
  {
    (pd < 0.0 < d) || (d < 0.0 < pd)
  }

  /** A hit on an edge whose two ends are not strictly on the other side
      of `l` from a point with value `pd` is not either. */
  lemma EdgeHitKeepsSide(pts: seq<Point>, line: Line, i: nat, l: Line, pd: real)
    requires i < |pts| && EdgeHit(pts, line, i).Some?
    requires !Opposite(pd, Diversion(l, pts[i])) && !Opposite(pd, Diversion(l, pts[(i + 1) % |pts|]))
    ensures !Opposite(pd, Diversion(l, EdgeHit(pts, line, i).value))
  {
    var p0, p1 := pts[i], pts[(i + 1) % |pts|];
    var s := OnSegment(p0, p1, EdgeHit(pts, line, i).value);
    SegmentKeepsSide(l, p0, p1, s, pd);
  }

  /** A point between two points that are not strictly on the other side
      of `l` from `pd` is not either. */
  lemma SegmentKeepsSide(l: Line, p0: Point, p1: Point, s: real, pd: real)
    requires 0.0 <= s <= 1.0
    requires !Opposite(pd, Diversion(l, p0)) && !Opposite(pd, Diversion(l, p1))
    ensures !Opposite(pd, Diversion(l, Lerp(p0, p1, s)))
  {
    DiversionAffine(l, p0, p1, s);
    if pd < 0.0 {
      ConvexNonPositive(s, Diversion(l, p0), Diversion(l, p1));
    } else if pd > 0.0 {
      ConvexNonNegative(s, Diversion(l, p0), Diversion(l, p1));
    }
  }

  lemma ConvexNonPositive(s: real, d0: real, d1: real)
    requires 0.0 <= s <= 1.0 && d0 <= 0.0 && d1 <= 0.0
    ensures (1.0 - s) * d0 + s * d1 <= 0.0
  {
    assert (1.0 - s) * d0 <= 0.0;
    assert s * d1 <= 0.0;
  }

  lemma ConvexNonNegative(s: real, d0: real, d1: real)
    requires 0.0 <= s <= 1.0 && d0 >= 0.0 && d1 >= 0.0
    ensures (1.0 - s) * d0 + s * d1 >= 0.0
  {
    assert (1.0 - s) * d0 >= 0.0;
    assert s * d1 >= 0.0;
  }

  /** The hits of edges `i..` added, without repeats, to `acc`. */
  function CollectHits(pts: seq<Point>, line: Line, i: nat, acc: seq<Point>): (r: seq<Point>)
    requires i <= |pts|
    requires Distinct(acc)
    ensures Distinct(r)
    ensures forall x :: x in r <==>
      x in acc || exists j :: i <= j < |pts| && EdgeHit(pts, line, j) == Some(x)
    decreases |pts| - i
  {
    if i == |pts| then acc
    else
      match EdgeHit(pts, line, i)
      case None => CollectHits(pts, line, i + 1, acc)
      case Some(x) =>
        if x in acc then CollectHits(pts, line, i + 1, acc)
        else
          assert Distinct(acc + [x]) by {
            forall j, k | 0 <= j < k < |acc + [x]| ensures (acc + [x])[j] != (acc + [x])[k] {
              if k == |acc| { assert (acc + [x])[j] == acc[j]; }
            }
          }
          CollectHits(pts, line, i + 1, acc + [x])
  }

  /** `Cell.get_intersections`: the points where `line` meets the cell's
      edges, each once. The source collects them in a set; here they are in
      order of first hit. */
  function Intersections(cell: Cell, line: Line): (r: seq<Point>)
    ensures Distinct(r)
    ensures forall x :: x in r <==>
      exists j :: 0 <= j < |cell.points| && EdgeHit(cell.points, line, j) == Some(x)
  {
    CollectHits(cell.points, line, 0, [])
  }

  /** The old vertices the clip keeps: those not strictly on the other side
      of `sep` from the generator, whose value is `pd`. */
  function KeepSide(pts: seq<Point>, sep: Line, pd: real): (r: seq<Point>)
    ensures |r| <= |pts|
    ensures forall v :: v in r <==> v in pts && !Opposite(pd, Diversion(sep, v))
  {
    if |pts| == 0 then []
    else
      var rest := KeepSide(pts[1..], sep, pd);
      assert forall v :: v in pts <==> v == pts[0] || v in pts[1..];
      if Opposite(pd, Diversion(sep, pts[0])) then rest else [pts[0]] + rest
  }

  /** `Cell.sort_counterclockwise`. */
  function SortCounterclockwise(cell: Cell): (r: Cell)
    requires |cell.points| >= 1
    ensures multiset(r.points) == multiset(cell.points)
    ensures r.points[0] == cell.points[StartIndex(cell.points)]
    ensures SortedBySlope(r.points[0], r.points[1..])
  {
    Cell(CanonicalOrder(cell.points))
  }

  /** Sorting an already sorted cell changes nothing. */
  lemma SortCounterclockwiseIdempotent(cell: Cell)
    requires |cell.points| >= 1
    ensures SortCounterclockwise(SortCounterclockwise(cell)) == SortCounterclockwise(cell)
  {
    CanonicalOrderIdempotent(cell.points);
  }

  /** The bisector of `pa` and `pb` cuts `cell` in two points or more. */
  predicate Cuts(cell: Cell, pa: Point, pb: Point)
  {
    |Intersections(cell, Separating(pa, pb))| >= 2
  }


  /** Equal generators never cut: their bisector is the zero line, which
      meets no edge. */
  lemma CutsDistinct(cell: Cell, pa: Point, pb: Point)
    requires Cuts(cell, pa, pb)
    ensures pa != pb
  {
    var xs := Intersections(cell, Separating(pa, pb));
    assert xs[0] in xs;
  }

  /** One pass of the inner loop of `voronoi`: clip the cell of `pa`
      against the bisector of `pa` and `pb`. The new cell is the
      intersections followed by the old vertices not strictly on the far
      side, sorted counterclockwise; fewer than two intersections leave the
      cell as it is. */
  function Clip(cell: Cell, pa: Point, pb: Point): (r: Cell)
    ensures !Cuts(cell, pa, pb) ==> r == cell
    ensures Cuts(cell, pa, pb) ==>
      forall x :: x in Intersections(cell, Separating(pa, pb)) ==> x in r.points
    ensures Cuts(cell, pa, pb) ==>
      forall v :: v in cell.points ==>
        (v in r.points <==> !Opposite(Diversion(Separating(pa, pb), pa), Diversion(Separating(pa, pb), v)))
    ensures Cuts(cell, pa, pb) ==>
      forall v :: v in r.points ==> v in cell.points || v in Intersections(cell, Separating(pa, pb))
    ensures Cuts(cell, pa, pb) ==>
      forall v :: v in r.points ==> !Opposite(Diversion(Separating(pa, pb), pa), Diversion(Separating(pa, pb), v))
  {
    var sep := Separating(pa, pb);
    var xs := Intersections(cell, sep);
    if |xs| < 2 then cell
    else
      var pd := Diversion(sep, pa);
      var kept := KeepSide(cell.points, sep, pd);
      var r := SortCounterclockwise(Cell(xs + kept));
      assert forall v :: v in r.points <==> v in xs || v in kept by {
        forall v ensures v in r.points <==> v in xs || v in kept {
          assert v in r.points <==> v in multiset(r.points);
          assert v in xs + kept <==> v in multiset(xs + kept);
        }
      }
      assert forall x :: x in xs ==> Diversion(sep, x) == 0.0 by {
        forall x | x in xs ensures Diversion(sep, x) == 0.0 {
          var j :| 0 <= j < |cell.points| && EdgeHit(cell.points, sep, j) == Some(x);
        }
      }
      r
  }

  /** The image rectangle every cell starts from. */
  function Rect(w: int, h: int): Cell
  {
    Cell([Point(0.0, 0.0), Point(0.0, h as real), Point(w as real, h as real), Point(w as real, 0.0)])
  }

  /** The inner loop of `voronoi` for generator `i` at generator `k`: skip
      `i` itself, clip against every other generator. */
  function Step(g: seq<Point>, i: nat, k: nat, cell: Cell): Cell
    requires i < |g| && k < |g|
  {
    if k == i then cell else Clip(cell, g[i], g[k])
  }

  /** `t[k]` is the cell of generator `i` after the inner loop has seen
      generators `0 .. k - 1`. */
  predicate IsTrace(g: seq<Point>, i: nat, w: int, h: int, t: seq<Cell>)
    requires i < |g|
  {
    && |t| == |g| + 1
    && t[0] == Rect(w, h)
    && forall k {:trigger Step(g, i, k, t[k])} :: 0 <= k < |g| ==> t[k + 1] == Step(g, i, k, t[k])
  }

  /** The cell of generator `i` after the inner loop has seen generators
      `0 .. k - 1`. */
  function CellAfter(g: seq<Point>, i: nat, w: int, h: int, k: nat): Cell
    requires i < |g| && k <= |g|
  {
    if k == 0 then Rect(w, h) else Step(g, i, k - 1, CellAfter(g, i, w, h, k - 1))
  }

  /** The successive cells of generator `i`. */
  function CellTrace(g: seq<Point>, i: nat, w: int, h: int): (t: seq<Cell>)
    requires i < |g|
    ensures IsTrace(g, i, w, h, t)
  {
    seq(|g| + 1, k requires 0 <= k <= |g| => CellAfter(g, i, w, h, k))
  }

  /** `voronoi`: one cell per generator, in the generators' order, each
      the last cell of its trace. */
  function Voronoi(g: seq<Point>, w: int, h: int): (cells: seq<Cell>)
    ensures |cells| == |g|
    ensures forall i :: 0 <= i < |g| ==> cells[i] == CellTrace(g, i, w, h)[|g|]
  {
    seq(|g|, i requires 0 <= i < |g| => CellTrace(g, i, w, h)[|g|])
  }

  /** A single generator keeps the whole rectangle. */
  lemma VoronoiSingle(p: Point, w: int, h: int)
    ensures Voronoi([p], w, h) == [Rect(w, h)]
  {
    var t := CellTrace([p], 0, w, h);
    assert t[1] == Step([p], 0, 0, t[0]);
  }

  predicate InImage(v: Point, w: int, h: int)
  {
    0.0 <= v.x <= w as real && 0.0 <= v.y <= h as real
  }

  /** All vertices of `cell` lie within [0, w] x [0, h]. */
  predicate CellInImage(cell: Cell, w: int, h: int)
  {
    forall v :: v in cell.points ==> InImage(v, w, h)
  }

  /** Clipping a cell whose vertices are in the image keeps them there. */
  lemma ClipInImage(cell: Cell, pa: Point, pb: Point, w: int, h: int)
    requires CellInImage(cell, w, h)
    ensures CellInImage(Clip(cell, pa, pb), w, h)
  {
    var sep := Separating(pa, pb);
    forall v | v in Clip(cell, pa, pb).points ensures InImage(v, w, h) {
      if v !in cell.points {
        var n := |cell.points|;
        var j :| 0 <= j < n && EdgeHit(cell.points, sep, j) == Some(v);
        assert cell.points[j] in cell.points;
        assert cell.points[(j + 1) % n] in cell.points;
        EdgeHitInImage(cell.points, sep, j, w, h);
      }
    }
  }

  /** A hit inside the bounding box of an edge whose ends are in the image
      is in the image too. */
  lemma EdgeHitInImage(pts: seq<Point>, line: Line, i: nat, w: int, h: int)
    requires i < |pts| && EdgeHit(pts, line, i).Some?
    requires InImage(pts[i], w, h) && InImage(pts[(i + 1) % |pts|], w, h)
    ensures InImage(EdgeHit(pts, line, i).value, w, h)
  {
    assert InBox(EdgeHit(pts, line, i).value, pts[i], pts[(i + 1) % |pts|]);
  }

  lemma {:induction false} TraceInImage(g: seq<Point>, i: nat, w: int, h: int, t: seq<Cell>, k: nat)
    requires i < |g| && IsTrace(g, i, w, h, t) && k <= |g|
    requires w >= 0 && h >= 0
    ensures CellInImage(t[k], w, h)
  {
    if k == 0 {
      RectInImage(w, h);
    } else {
      TraceInImage(g, i, w, h, t, k - 1);
      StepInImage(g, i, k - 1, t[k - 1], w, h);
      assert t[k] == Step(g, i, k - 1, t[k - 1]);
    }
  }

  lemma RectInImage(w: int, h: int)
    requires w >= 0 && h >= 0
    ensures CellInImage(Rect(w, h), w, h)
  {
  }

  lemma StepInImage(g: seq<Point>, i: nat, k: nat, cell: Cell, w: int, h: int)
    requires i < |g| && k < |g|
    requires CellInImage(cell, w, h)
    ensures CellInImage(Step(g, i, k, cell), w, h)
  {
    if k != i {
      ClipInImage(cell, g[i], g[k], w, h);
    }
  }

  /** Every vertex of every cell lies within [0, w] x [0, h]. */
  lemma VoronoiInImage(g: seq<Point>, w: int, h: int)
    requires w >= 0 && h >= 0
    ensures forall i :: 0 <= i < |g| ==> CellInImage(Voronoi(g, w, h)[i], w, h)
  {
    forall i | 0 <= i < |g| ensures CellInImage(Voronoi(g, w, h)[i], w, h) {
      TraceInImage(g, i, w, h, CellTrace(g, i, w, h), |g|);
    }
  }

  /** No vertex of `cell` is strictly on the other side of `l` from a
      point whose value on `l` is `pd`. */
  predicate CellOnSide(cell: Cell, l: Line, pd: real)
  {
    forall v :: v in cell.points ==> !Opposite(pd, Diversion(l, v))
  }

  /** Clipping keeps a cell on its side of any line: kept vertices are old
      ones, and new ones lie on edges between old ones. */
  lemma ClipKeepsSide(cell: Cell, pa: Point, pb: Point, l: Line, pd: real)
    requires CellOnSide(cell, l, pd)
    ensures CellOnSide(Clip(cell, pa, pb), l, pd)
  {
    var sep := Separating(pa, pb);
    forall v | v in Clip(cell, pa, pb).points ensures !Opposite(pd, Diversion(l, v)) {
      if v !in cell.points {
        var n := |cell.points|;
        var j :| 0 <= j < n && EdgeHit(cell.points, sep, j) == Some(v);
        assert cell.points[j] in cell.points;
        assert cell.points[(j + 1) % n] in cell.points;
        EdgeHitKeepsSide(cell.points, sep, j, l, pd);
      }
    }
  }

  /** Once the cell is on one side of a line, the later passes keep it
      there. */
  lemma {:induction false} TraceStaysOnSide(g: seq<Point>, i: nat, w: int, h: int, t: seq<Cell>,
                                            m: nat, k: nat, l: Line, pd: real)
    requires i < |g| && IsTrace(g, i, w, h, t) && m <= k <= |g|
    requires CellOnSide(t[m], l, pd)
    ensures CellOnSide(t[k], l, pd)
    decreases k
  {
    if k > m {
      TraceStaysOnSide(g, i, w, h, t, m, k - 1, l, pd);
      assert t[k] == Step(g, i, k - 1, t[k - 1]);
      if k - 1 != i {
        ClipKeepsSide(t[k - 1], g[i], g[k - 1], l, pd);
      }
    }
  }

  /** The side of the bisector of generators `i` and `j` that holds
      generator `i`. */
  predicate OnSideOf(g: seq<Point>, i: nat, j: nat, cell: Cell)
    requires i < |g| && j < |g|
  {
    CellOnSide(cell, Separating(g[i], g[j]), Diversion(Separating(g[i], g[j]), g[i]))
  }

  /** The pass of generator `j` puts the cell on `i`'s side of their
      bisector when it cuts, and the later passes keep it there. */
  lemma TraceSide(g: seq<Point>, i: nat, w: int, h: int, t: seq<Cell>, j: nat)
    requires i < |g| && j < |g| && i != j && IsTrace(g, i, w, h, t)
    requires Cuts(t[j], g[i], g[j])
    ensures OnSideOf(g, i, j, t[|g|])
  {
    StepOnSide(g, i, j, t[j]);
    TraceAfterStep(g, i, w, h, t, j, Separating(g[i], g[j]), Diversion(Separating(g[i], g[j]), g[i]));
  }

  /** A side reached at pass `j` is kept to the end of the trace. */
  lemma TraceAfterStep(g: seq<Point>, i: nat, w: int, h: int, t: seq<Cell>, j: nat, l: Line, pd: real)
    requires i < |g| && j < |g| && IsTrace(g, i, w, h, t)
    requires CellOnSide(Step(g, i, j, t[j]), l, pd)
    ensures CellOnSide(t[|g|], l, pd)
  {
    TraceNext(g, i, w, h, t, j);
    TraceStaysOnSide(g, i, w, h, t, j + 1, |g|, l, pd);
  }

  /** Entry `j + 1` of a trace is entry `j` after pass `j`. */
  lemma TraceNext(g: seq<Point>, i: nat, w: int, h: int, t: seq<Cell>, j: nat)
    requires i < |g| && j < |g| && IsTrace(g, i, w, h, t)
    ensures t[j + 1] == Step(g, i, j, t[j])
  {
  }

  /** A cut by the bisector with another generator leaves the cell on the
      own generator's side. */
  lemma StepOnSide(g: seq<Point>, i: nat, k: nat, cell: Cell)
    requires i < |g| && k < |g| && i != k
    requires Cuts(cell, g[i], g[k])
    ensures CellOnSide(Step(g, i, k, cell), Separating(g[i], g[k]), Diversion(Separating(g[i], g[k]), g[i]))
  {
  }

  /** Each vertex of the cell of generator `i` is on generator `i`'s side
      of the bisector with every generator `j` that cut the cell when its
      turn came. */
  lemma VoronoiSide(g: seq<Point>, w: int, h: int, i: nat, j: nat)
    requires i < |g| && j < |g| && i != j
    requires Cuts(CellTrace(g, i, w, h)[j], g[i], g[j])
    ensures OnSideOf(g, i, j, Voronoi(g, w, h)[i])
  {
    TraceSide(g, i, w, h, CellTrace(g, i, w, h), j);
  }

  /** The same in distances: each vertex of the cell of generator `i` is
      at least as close to generator `i` as to every generator `j` that
      cut the cell when its turn came. */
  lemma VoronoiNearest(g: seq<Point>, w: int, h: int, i: nat, j: nat)
    requires i < |g| && j < |g| && i != j
    requires Cuts(CellTrace(g, i, w, h)[j], g[i], g[j])
    ensures g[i] != g[j]
    ensures forall v :: v in Voronoi(g, w, h)[i].points ==> Dist2(v, g[i]) <= Dist2(v, g[j])
  {
    VoronoiSide(g, w, h, i, j);
    CutsDistinct(CellTrace(g, i, w, h)[j], g[i], g[j]);
    SeparatingSide(g[i], g[j], g[i]);
    Dist2NonNegative(g[i], g[i]);
    forall v | v in Voronoi(g, w, h)[i].points ensures Dist2(v, g[i]) <= Dist2(v, g[j]) {
      SeparatingSide(g[i], g[j], v);
    }
  }
}
