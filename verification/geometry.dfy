/** Exact planar primitives shared by the convex hull and the Voronoi code:
    points, the orientation (cross product) test, the slope key with its
    vertical-line sentinel, squared distances. Coordinates are exact reals;
    the source's integer inputs embed into them without loss. */
module Geometry {

  /** A point of the plane; datatype equality is exact coordinate equality. */
  datatype Point = Point(x: real, y: real)

  /** Coordinate-wise equality, as `Point.__eq__` decides it. */
  function SamePoint(p: Point, q: Point): (r: bool)
    ensures r <==> p == q
  {
    p.x == q.x && p.y == q.y
  }

  /** Twice the signed area of triangle (p1, p2, p3): positive when p3 lies
      to the left of the directed line p1 -> p2. */
  function Cross(p1: Point, p2: Point, p3: Point): real
  {
    (p2.x - p1.x) * (p3.y - p1.y) - (p2.y - p1.y) * (p3.x - p1.x)
  }

  /** The signed area does not depend on which vertex it is measured
      from, and vanishes when two vertices coincide. */
  lemma CrossCyclic(p1: Point, p2: Point, p3: Point)
    ensures Cross(p1, p2, p3) == Cross(p2, p3, p1) == Cross(p3, p1, p2)
    ensures p1 == p2 || p2 == p3 || p1 == p3 ==> Cross(p1, p2, p3) == 0.0
  {
  }

  lemma CrossAntisymmetric(p1: Point, p2: Point, p3: Point)
    ensures Cross(p1, p2, p3) == -Cross(p1, p3, p2)
    ensures Cross(p1, p2, p1) == 0.0 && Cross(p1, p2, p2) == 0.0
  {
  }

  /** Moving the base point: the orientation of any triple is expressed
      through the orientations of triples that share the base `o`. */
  lemma CrossRebase(o: Point, a: Point, b: Point, c: Point)
    ensures Cross(a, b, c) == Cross(o, b, c) - Cross(o, a, c) + Cross(o, a, b)
  {
  }

  /** The sort key of the slope order: `NegInf` is the `-float('inf')`
      sentinel returned for a vertical pair, ordered below every real. */
  datatype Slope = NegInf | Finite(v: real)

  predicate SlopeLe(s: Slope, t: Slope)
  {
    s.NegInf? || (t.Finite? && s.v <= t.v)
  }

  lemma SlopeLeTotalOrder(s: Slope, t: Slope, u: Slope)
    ensures SlopeLe(s, s)
    ensures SlopeLe(s, t) || SlopeLe(t, s)
    ensures SlopeLe(s, t) && SlopeLe(t, s) ==> s == t
    ensures SlopeLe(s, t) && SlopeLe(t, u) ==> SlopeLe(s, u)
  {
  }

  /** The slope of the segment p1 -> p2, or the sentinel when it is vertical. */
  function SlopeOf(p1: Point, p2: Point): (r: Slope)
    ensures r.NegInf? <==> p1.x == p2.x
    ensures r.Finite? ==> r.v * (p2.x - p1.x) == p2.y - p1.y
  {
    if p1.x == p2.x then NegInf else Finite((p2.y - p1.y) / (p2.x - p1.x))
  }

  /** Squared Euclidean distance. */
  function Dist2(p: Point, q: Point): real
  {
    (p.x - q.x) * (p.x - q.x) + (p.y - q.y) * (p.y - q.y)
  }

  /** A product of two positive reals is positive. */
  lemma ProductPositive(a: real, b: real)
    requires a > 0.0 && b > 0.0
    ensures a * b > 0.0
  {
  }

  /** The sign of a square `s` of `d`: never negative, and zero only at
      zero. The factor is passed twice under two names because the solver
      keeps a fact about `d * e` that it would rewrite away for `d * d`. */
  lemma SquareSign(d: real, e: real, s: real)
    requires e == d && s == d * e
    ensures s >= 0.0
    ensures s == 0.0 <==> d == 0.0
  {
    if d > 0.0 {
      ProductPositive(d, e);
    } else if d < 0.0 {
      ProductPositive(-d, -e);
      assert s == (-d) * (-e);
    }
  }

  /** Two different points are at positive squared distance. */
  lemma Dist2Positive(p: Point, q: Point)
    requires p != q
    ensures Dist2(p, q) > 0.0
  {
    var dx, dy := p.x - q.x, p.y - q.y;
    var sx, sy := dx * dx, dy * dy;
    assert Dist2(p, q) == sx + sy;
    assert dx != 0.0 || dy != 0.0 by {
      assert p == Point(p.x, p.y) && q == Point(q.x, q.y);
    }
    SquareSign(dx, dx, sx);
    SquareSign(dy, dy, sy);
  }

  /** `transform_coordinates_raw_to_normal`: the file stores (y, x). */
  function RawToNormal(raw: (int, int)): (r: (int, int))
    ensures r.0 == raw.1 && r.1 == raw.0
  {
    (raw.1, raw.0)
  }

  lemma RawToNormalInvolution(raw: (int, int))
    ensures RawToNormal(RawToNormal(raw)) == raw
    ensures RawToNormal(raw) == raw <==> raw.0 == raw.1
  {
  }

  /** No two positions hold the same point. */
  predicate Distinct(s: seq<Point>)
  {
    forall i, j :: 0 <= i < j < |s| ==> s[i] != s[j]
  }

  /** Every triple of points of `s` (repetitions allowed) has orientation 0. */
  predicate Collinear(s: seq<Point>)
  {
    forall a, b, c :: a in s && b in s && c in s ==> Cross(a, b, c) == 0.0
  }

  /** Collinearity depends only on which points occur. */
  lemma CollinearSameElements(s: seq<Point>, t: seq<Point>)
    requires multiset(s) == multiset(t)
    ensures Collinear(s) <==> Collinear(t)
  {
    forall p ensures p in s <==> p in t {
      assert p in s <==> p in multiset(s);
      assert p in t <==> p in multiset(t);
    }
  }

  /** Two equal positions give a multiplicity of at least two. */
  lemma TwoPositions(s: seq<Point>, i: nat, j: nat)
    requires i < j < |s| && s[i] == s[j]
    ensures multiset(s)[s[i]] >= 2
  {
    assert s == s[..j] + s[j..];
    assert s[i] in s[..j];
    assert s[j] in s[j..];
    assert multiset(s) == multiset(s[..j]) + multiset(s[j..]);
  }

  /** A sequence without repetitions has every multiplicity at most one. */
  lemma {:induction false} DistinctMultiplicity(s: seq<Point>, p: Point)
    requires Distinct(s)
    ensures multiset(s)[p] <= 1
  {
    if |s| > 0 {
      assert s == [s[0]] + s[1..];
      assert Distinct(s[1..]) by {
        forall i, j | 0 <= i < j < |s[1..]| ensures s[1..][i] != s[1..][j] {
          assert s[1..][i] == s[i + 1] && s[1..][j] == s[j + 1];
        }
      }
      DistinctMultiplicity(s[1..], p);
      if s[0] == p {
        forall k | 0 <= k < |s[1..]| ensures s[1..][k] != p {
          assert s[1..][k] == s[k + 1];
        }
        assert p !in s[1..];
        assert multiset(s[1..])[p] == 0;
      }
      assert multiset(s) == multiset([s[0]]) + multiset(s[1..]);
    }
  }

  /** Reordering preserves the absence of repetitions. */
  lemma DistinctPermutation(s: seq<Point>, t: seq<Point>)
    requires multiset(s) == multiset(t)
    requires Distinct(s)
    ensures Distinct(t)
  {
    forall i, j | 0 <= i < j < |t| ensures t[i] != t[j] {
      if t[i] == t[j] {
        TwoPositions(t, i, j);
        DistinctMultiplicity(s, t[i]);
      }
    }
  }
}
