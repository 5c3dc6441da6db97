/** `calculate_convex_hull` of lab3/main.py: a Graham-style scan over the
    points in canonical counterclockwise order, keeping a stack of indices
    into the reordered list. */
module Hull {
  import opened Geometry
  import opened Ordering
  import opened Results

  /** Why the scan raises: `points[0]` on an empty list (line 80), or
      `points[next_point_i]` one past the end (line 100). */
  datatype HullError = EmptyInput | IndexOutOfRange

  predicate StrictlyIncreasing(h: seq<nat>)
  {
    forall a, b :: 0 <= a < b < |h| ==> h[a] < h[b]
  }

  /** Entries k, k + 1, k + 2 of the stack `h` turn strictly left in `q`. */
  predicate TurnAt(q: seq<Point>, h: seq<nat>, k: nat)
  {
    && k + 2 < |h|
    && h[k] < |q| && h[k + 1] < |q| && h[k + 2] < |q|
    && Cross(q[h[k]], q[h[k + 1]], q[h[k + 2]]) > 0.0
  }

  /** Every index is in range and every three consecutive entries turn
      strictly left. The closing triple back to index 0 is not part of it. */
  predicate LeftTurns(q: seq<Point>, h: seq<nat>)
  {
    && (forall k :: 0 <= k < |h| ==> h[k] < |q|)
    && (forall k: nat :: k < |h| - 2 ==> TurnAt(q, h, k))
  }

  /** What a returned hull looks like against the reordered points `q`. */
  predicate ValidHull(q: seq<Point>, h: seq<nat>)
  {
    && |h| >= 3
    && h[0] == 0
    && StrictlyIncreasing(h)
    && LeftTurns(q, h)
    && h[|h| - 1] == |q| - 1
  }

  /** The slope of position `k` seen from the start point `q[0]`. */
  function Key(q: seq<Point>, k: nat): Slope
    requires k < |q|
  {
    SlopeOf(q[0], q[k])
  }

  /** Two points on the same ray from `o` are collinear with it. */
  lemma SameSlopeCrossZero(o: Point, a: Point, b: Point)
    requires SlopeOf(o, a) == SlopeOf(o, b)
    ensures Cross(o, a, b) == 0.0
  {
    if SlopeOf(o, a).Finite? {
      var s := SlopeOf(o, a).v;
      assert a.y - o.y == s * (a.x - o.x);
      assert b.y - o.y == s * (b.x - o.x);
      calc {
        Cross(o, a, b);
        (a.x - o.x) * (s * (b.x - o.x)) - (s * (a.x - o.x)) * (b.x - o.x);
        0.0;
      }
    }
  }

  /** Seen from a start point that dominates them, two other points in
      ascending slope order turn right or go straight only when their
      slopes are equal. */
  lemma CrossNonPositiveSameSlope(o: Point, a: Point, b: Point)
    requires o != a && o != b
    requires LeftTop(o, a) && LeftTop(o, b)
    requires SlopeLe(SlopeOf(o, a), SlopeOf(o, b))
    requires Cross(o, a, b) <= 0.0
    ensures SlopeOf(o, a) == SlopeOf(o, b)
  {
    if a.x == o.x {
      assert a.y < o.y;
      assert Cross(o, a, b) == (o.y - a.y) * (b.x - o.x);
    } else {
      var sa, sb := SlopeOf(o, a).v, SlopeOf(o, b).v;
      var dxa, dxb := a.x - o.x, b.x - o.x;
      assert dxa > 0.0 && dxb > 0.0;
      assert Cross(o, a, b) == dxa * dxb * (sb - sa) by {
        assert a.y - o.y == sa * dxa;
        assert b.y - o.y == sb * dxb;
      }
      assert dxa * dxb > 0.0;
    }
  }

  /** If every non-start point has the slope of position 1, all points lie
      on one line. */
  lemma CollinearFromSlopes(q: seq<Point>)
    requires |q| >= 1
    requires forall k :: 1 <= k < |q| ==> Key(q, k) == Key(q, 1)
    ensures Collinear(q)
  {
    forall u, v | u in q && v in q ensures Cross(q[0], u, v) == 0.0 {
      var i :| 0 <= i < |q| && q[i] == u;
      var j :| 0 <= j < |q| && q[j] == v;
      if i != 0 && j != 0 {
        assert Key(q, i) == Key(q, 1) && Key(q, j) == Key(q, 1);
        SameSlopeCrossZero(q[0], u, v);
      }
    }
    forall a, b, c | a in q && b in q && c in q ensures Cross(a, b, c) == 0.0 {
      CrossRebase(q[0], a, b, c);
    }
  }

  /** The reordered list the scan works on: the start point first, every
      point dominated by it, the rest in ascending slope from it. */
  predicate ScanOrder(q: seq<Point>)
  {
    && |q| >= 1
    && (forall k :: 0 <= k < |q| ==> LeftTop(q[0], q[k]))
    && SortedBySlope(q[0], q[1..])
  }

  lemma KeyOrdered(q: seq<Point>, i: nat, j: nat)
    requires ScanOrder(q) && 1 <= i <= j < |q|
    ensures SlopeLe(Key(q, i), Key(q, j))
  {
    if i < j {
      assert q[1..][i - 1] == q[i] && q[1..][j - 1] == q[j];
    } else {
      SlopeLeTotalOrder(Key(q, i), Key(q, i), Key(q, i));
    }
  }

  /** When the scan runs past the end, the last point has the slope of the
      first non-start point, so every point lies on one line. */
  lemma OverrunMeansCollinear(q: seq<Point>)
    requires ScanOrder(q)
    requires |q| >= 2 ==> Key(q, |q| - 1) == Key(q, 1)
    ensures Collinear(q)
  {
    var n := |q|;
    forall k | 1 <= k < n ensures Key(q, k) == Key(q, 1) {
      KeyOrdered(q, 1, k);
      KeyOrdered(q, k, n - 1);
      SlopeLeTotalOrder(Key(q, k), Key(q, 1), Key(q, k));
    }
    CollinearFromSlopes(q);
  }

  /** Popping the stack down to the start point only happens between two
      points with equal slope, when no point repeats. */
  lemma PopToStartSameKey(q: seq<Point>, k: nat, m: nat)
    requires ScanOrder(q) && Distinct(q)
    requires 1 <= k < m < |q|
    requires Cross(q[0], q[k], q[m]) <= 0.0
    ensures Key(q, k) == Key(q, m)
  {
    KeyOrdered(q, k, m);
    CrossNonPositiveSameSlope(q[0], q[k], q[m]);
  }

  /** A strict left turn among the points rules out collinearity. */
  lemma LeftTurnNotCollinear(q: seq<Point>, h: seq<nat>)
    requires LeftTurns(q, h) && |h| >= 3
    ensures !Collinear(q)
  {
    assert TurnAt(q, h, 0);
    assert q[h[0]] in q && q[h[1]] in q && q[h[2]] in q;
  }

  /** The stack after pushing a candidate that makes a strict left turn. */
  lemma PushKeepsStack(q: seq<Point>, h: seq<nat>, next: nat)
    requires StrictlyIncreasing(h) && LeftTurns(q, h)
    requires |h| >= 2 && h[|h| - 1] < next < |q|
    requires Cross(q[h[|h| - 2]], q[h[|h| - 1]], q[next]) > 0.0
    ensures StrictlyIncreasing(h + [next]) && LeftTurns(q, h + [next])
  {
    var h' := h + [next];
    forall k: nat | k < |h'| - 2 ensures TurnAt(q, h', k) {
      if k < |h| - 2 {
        assert TurnAt(q, h, k);
        assert h'[k] == h[k] && h'[k + 1] == h[k + 1] && h'[k + 2] == h[k + 2];
      }
    }
  }

  /** The stack after popping its top. */
  lemma PopKeepsStack(q: seq<Point>, h: seq<nat>)
    requires StrictlyIncreasing(h) && LeftTurns(q, h) && |h| >= 1
    ensures StrictlyIncreasing(h[..|h| - 1]) && LeftTurns(q, h[..|h| - 1])
  {
    var h' := h[..|h| - 1];
    forall k: nat | k < |h'| - 2 ensures TurnAt(q, h', k) {
      assert TurnAt(q, h, k);
      assert h'[k] == h[k] && h'[k + 1] == h[k + 1] && h'[k + 2] == h[k + 2];
    }
  }

  /** The loop invariant of the scan at the head of an iteration: the stack
      starts at index 0, its other entries lie below the candidate `next`,
      it turns strictly left, and (when no point repeats) its second entry,
      or the candidate when the stack was popped down to the start, has the
      slope of position 1. */
  ghost predicate ScanInv(q: seq<Point>, hull: seq<nat>, next: nat)
  {
    && |hull| >= 1 && hull[0] == 0
    && next < |q|
    && (next == 0 ==> hull == [0])
    && (forall k :: 1 <= k < |hull| ==> hull[k] < next)
    && StrictlyIncreasing(hull)
    && LeftTurns(q, hull)
    && (Distinct(q) && |hull| >= 2 ==> Key(q, hull[1]) == Key(q, 1))
    && (Distinct(q) && |hull| == 1 && next >= 1 ==> Key(q, next) == Key(q, 1))
  }

  /** The state after the refill at the top of the loop body (lines 93-95):
      the stack holds two entries or more, and is [0, 0] only on the first
      pass. A candidate one past the end means, without repeated points,
      that every point lies on one line. */
  ghost predicate Refilled(q: seq<Point>, hull: seq<nat>, next: nat, first: bool)
  {
    && |hull| >= 2 && hull[0] == 0
    && next <= |q|
    && (forall k :: 1 <= k < |hull| ==> hull[k] < next)
    && (first ==> hull == [0, 0] && next == 1)
    && (!first ==> StrictlyIncreasing(hull) && LeftTurns(q, hull))
    && (Distinct(q) && !first ==> Key(q, hull[1]) == Key(q, 1))
    && (next == |q| && Distinct(q) ==> Collinear(q))
  }

  lemma RefillStep(q: seq<Point>, hull: seq<nat>, next: nat, hull': seq<nat>, next': nat)
    requires ScanOrder(q) && ScanInv(q, hull, next)
    requires if |hull| < 2 then hull' == hull + [next] && next' == next + 1
             else hull' == hull && next' == next
    ensures Refilled(q, hull', next', next == 0)
  {
    if |hull| < 2 {
      assert hull == [0];
      if next' == |q| && Distinct(q) {
        OverrunMeansCollinear(q);
      }
    }
  }

  /** Pushing a candidate that turns strictly left (lines 102-106): either
      the scan goes on, or the candidate was the last point and the stack
      is a valid hull. */
  lemma PushStep(q: seq<Point>, hull: seq<nat>, next: nat, first: bool)
    requires ScanOrder(q) && Refilled(q, hull, next, first) && next < |q|
    requires Cross(q[hull[|hull| - 2]], q[hull[|hull| - 1]], q[next]) > 0.0
    ensures next + 1 < |q| ==> ScanInv(q, hull + [next], next + 1)
    ensures next + 1 == |q| ==> ValidHull(q, hull + [next])
  {
    if first {
      CrossAntisymmetric(q[0], q[next], q[0]);
      assert false;
    }
    PushKeepsStack(q, hull, next);
    var h' := hull + [next];
    assert h'[1] == hull[1];
  }

  /** Popping the stack when the candidate does not turn left (line 108). */
  lemma PopStep(q: seq<Point>, hull: seq<nat>, next: nat, first: bool)
    requires ScanOrder(q) && Refilled(q, hull, next, first) && next < |q|
    requires Cross(q[hull[|hull| - 2]], q[hull[|hull| - 1]], q[next]) <= 0.0
    ensures ScanInv(q, hull[..|hull| - 1], next)
  {
    if !first {
      if Distinct(q) && |hull| == 2 {
        PopToStartSameKey(q, hull[1], next);
      }
      PopKeepsStack(q, hull);
    }
  }

  /** The loop of `calculate_convex_hull` (lines 92-108) from the head of
      an iteration with stack `hull` and candidate `next`: refill, then
      push on a strict left turn or pop otherwise. */
  function ScanFrom(q: seq<Point>, hull: seq<nat>, next: nat): (r: Result<seq<nat>, HullError>)
    requires ScanOrder(q) && ScanInv(q, hull, next)
    ensures r.Success? ==> ValidHull(q, r.value)
    ensures r.Failure? ==> r.error == IndexOutOfRange
    ensures r.Failure? && Distinct(q) ==> Collinear(q)
    decreases |q| - next, |hull|
  {
    var hull', next' := if |hull| < 2 then hull + [next] else hull, if |hull| < 2 then next + 1 else next;
    RefillStep(q, hull, next, hull', next');
    if next' == |q| then
      // The scan reads one past the end of the list.
      Failure(IndexOutOfRange)
    else if Cross(q[hull'[|hull'| - 2]], q[hull'[|hull'| - 1]], q[next']) > 0.0 then
      PushStep(q, hull', next', next == 0);
      if next' + 1 == |q| then Success(hull' + [next'])
      else ScanFrom(q, hull' + [next'], next' + 1)
    else
      PopStep(q, hull', next', next == 0);
      ScanFrom(q, hull'[..|hull'| - 1], next')
  }

  /** The stack scan of `calculate_convex_hull` (lines 87-110) over the
      reordered list `q`, starting from the stack [0] and candidate 0. */
  function Scan(q: seq<Point>): (r: Result<seq<nat>, HullError>)
    requires ScanOrder(q)
    ensures r.Success? ==> ValidHull(q, r.value)
    ensures r.Failure? ==> r.error == IndexOutOfRange
    ensures r.Failure? && Distinct(q) ==> Collinear(q)
  {
    ScanFrom(q, [0], 0)
  }

  /** Four points that are already in canonical order: the start point,
      then two points straight below it in input order, the farther one
      first, then one to its right. */
  function MissExample(): seq<Point>
  {
    [Point(0.0, 0.0), Point(0.0, -2.0), Point(0.0, -1.0), Point(5.0, 0.0)]
  }

  lemma MissExampleOrder()
    ensures ScanOrder(MissExample()) && CanonicalOrder(MissExample()) == MissExample()
  {
    var q := MissExample();
    assert q[1..] == [q[1], q[2], q[3]];
    assert IsStart(q, 0);
    CanonicalOrderFixed(q);
  }

  lemma MissExampleGeneric()
    ensures Distinct(MissExample()) && !Collinear(MissExample())
  {
    var q := MissExample();
    assert q[2] in q && q[3] in q && Cross(q[0], q[2], q[3]) != 0.0;
  }

  /** The first pass stacks [0, 0] and pops; so does the second, as
      (0, -2) and (0, -1) lie on one ray from the start point. */
  lemma MissExamplePops(q: seq<Point>)
    requires q == MissExample() && ScanOrder(q)
    ensures ScanInv(q, [0], 2)
    ensures ScanFrom(q, [0], 0) == ScanFrom(q, [0], 2)
  {
    assert |q| == 4 && Key(q, 1) == NegInf == Key(q, 2);
    PopsAlongFirstRay(q);
  }

  /** When positions 1 and 2 lie on one ray from the start, the first two
      passes both end in a pop: the third pass starts from the stack [0]
      with candidate 2. */
  lemma PopsAlongFirstRay(q: seq<Point>)
    requires |q| >= 3 && ScanOrder(q) && Key(q, 1) == Key(q, 2)
    ensures ScanInv(q, [0], 2)
    ensures ScanFrom(q, [0], 0) == ScanFrom(q, [0], 2)
  {
    assert ScanInv(q, [0], 1);
    assert ScanInv(q, [0], 2);
    assert Cross(q[0], q[0], q[1]) == 0.0;
    PopFromStart(q, 0);
    SameSlopeCrossZero(q[0], q[1], q[2]);
    PopFromStart(q, 1);
  }

  /** One pass from the stack [0]: the candidate is pushed, does not turn
      left, and is popped again, so the next pass starts from [0] with the
      following candidate. */
  lemma PopFromStart(q: seq<Point>, next: nat)
    requires ScanOrder(q) && ScanInv(q, [0], next) && next + 1 < |q|
    requires ScanInv(q, [0], next + 1)
    requires Cross(q[0], q[next], q[next + 1]) <= 0.0
    ensures ScanFrom(q, [0], next) == ScanFrom(q, [0], next + 1)
  {
    var hull := [0] + [next];
    assert hull[0] == 0 && hull[1] == next;
    assert hull[..1] == [0];
  }

  /** Then (5, 0) turns left after (0, -1) and is the last point. */
  lemma MissExamplePush()
    requires ScanOrder(MissExample()) && ScanInv(MissExample(), [0], 2)
    ensures ScanFrom(MissExample(), [0], 2) == Success([0, 2, 3])
  {
    var q := MissExample();
    var hull := [0] + [2];
    assert hull[0] == 0 && hull[1] == 2 && |q| == 4;
    assert Cross(q[0], q[2], q[3]) > 0.0;
    assert hull + [3] == [0, 2, 3];
  }

  /** The returned hull need not hold every input point. On the points of
      `MissExample`, which are distinct, not all on one line and already in
      canonical order, the scan pops (0, -2) once (0, -1) turns out to be
      on the same ray and returns [0, 2, 3]. That leaves (0, -2) strictly
      to the right of the hull edge from (0, -1) to (5, 0). */
  lemma ScanMissesPoint()
    ensures var q := MissExample();
      && Distinct(q) && !Collinear(q)
      && CanonicalOrder(q) == q
      && ScanOrder(q) && Scan(q) == Success([0, 2, 3])
      && Cross(q[2], q[3], q[1]) < 0.0
  {
    MissExampleOrder();
    MissExampleGeneric();
    MissExamplePops(MissExample());
    MissExamplePush();
  }

  /** `calculate_convex_hull`. Returns the reordered list `q` (the source
      reorders its argument in place) and the hull as indices into `q`. */
  method ConvexHull(points: seq<Point>) returns (q: seq<Point>, r: Result<seq<nat>, HullError>)
    ensures |points| == 0 ==> r == Failure(EmptyInput)
    ensures |points| >= 1 ==> q == CanonicalOrder(points) && r == Scan(q)
    ensures r.Success? ==> ValidHull(q, r.value)
    ensures r.Success? ==> !Collinear(points)
    ensures Distinct(points) && !Collinear(points) ==> r.Success?
  {
    if |points| == 0 {
      q, r := points, Failure(EmptyInput);
      return;
    }
    q := CanonicalOrder(points);
    CollinearSameElements(points, q);
    if Distinct(points) {
      DistinctPermutation(points, q);
    }
    assert ScanOrder(q);
    r := Scan(q);
    if r.Success? {
      LeftTurnNotCollinear(q, r.value);
    }
  }
}
