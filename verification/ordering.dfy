/** The canonical counterclockwise order shared by the convex hull
    (lab3/main.py) and the Voronoi cells (`Cell.sort_counterclockwise` in
    lab4/voronoi.py): pick the leftmost point, the topmost among equally
    left ones and the earliest among exact ties; then order the remaining
    points by ascending slope from it with Python's stable sort. */
module Ordering {
  import opened Geometry

  /** `p` is at least as far left as `q`, and at least as high on a tie. */
  predicate LeftTop(p: Point, q: Point)
  {
    p.x < q.x || (p.x == q.x && q.y <= p.y)
  }

  /** Index `r` is the start point of `s`: leftmost, then topmost, and the
      first position holding that point. */
  predicate IsStart(s: seq<Point>, r: nat)
  {
    && r < |s|
    && (forall j :: 0 <= j < |s| ==> LeftTop(s[r], s[j]))
    && (forall j :: 0 <= j < r ==> s[j] != s[r])
  }

  /** At most one index is a start point. */
  lemma StartUnique(s: seq<Point>, a: nat, b: nat)
    requires IsStart(s, a) && IsStart(s, b)
    ensures a == b
  {
    assert LeftTop(s[a], s[b]) && LeftTop(s[b], s[a]);
    assert s[a] == s[b];
  }

  /** The scan of `get_starting_point_i` from position `i` on, `best` being
      the candidate chosen among positions before `i`. The candidate is
      replaced only on a strictly smaller x, or an equal x and a strictly
      greater y. */
  function StartScan(s: seq<Point>, i: nat, best: nat): (r: nat)
    requires best < i <= |s|
    requires forall j :: 0 <= j < i ==> LeftTop(s[best], s[j])
    requires forall j :: 0 <= j < best ==> s[j] != s[best]
    ensures IsStart(s, r)
    decreases |s| - i
  {
    if i == |s| then best
    else if s[i].x < s[best].x || (s[i].x == s[best].x && s[i].y > s[best].y) then
      assert forall j :: 0 <= j < i ==> LeftTop(s[best], s[j]) && LeftTop(s[i], s[j]);
      assert forall j :: 0 <= j < i ==> s[j] != s[i];
      StartScan(s, i + 1, i)
    else StartScan(s, i + 1, best)
  }

  /** `get_starting_point_i`, also the reference-point search of
      `sort_counterclockwise`. On an empty list the loop does not run and
      the initial 0 comes back. */
  function StartIndex(s: seq<Point>): (r: nat)
    ensures |s| == 0 ==> r == 0
    ensures |s| >= 1 ==> IsStart(s, r)
  {
    if |s| == 0 then 0 else StartScan(s, 1, 0)
  }

  /** Every occurrence of a point in `s` is dominated by the start point. */
  lemma StartDominates(s: seq<Point>, p: Point)
    requires |s| >= 1 && p in s
    ensures LeftTop(s[StartIndex(s)], p)
  {
    var j :| 0 <= j < |s| && s[j] == p;
  }

  /** Ascending slope from the reference point `o`. */
  predicate SortedBySlope(o: Point, s: seq<Point>)
  {
    forall i, j :: 0 <= i < j < |s| ==> SlopeLe(SlopeOf(o, s[i]), SlopeOf(o, s[j]))
  }

  /** Inserts `p` in front of every element whose key is not smaller. */
  function Insert(o: Point, p: Point, s: seq<Point>): (r: seq<Point>)
    requires SortedBySlope(o, s)
    ensures multiset(r) == multiset(s) + multiset{p}
    ensures |r| == |s| + 1
    ensures forall j :: 0 <= j < |r| ==> r[j] == p || r[j] in s
    ensures SortedBySlope(o, r)
  {
    if |s| == 0 || SlopeLe(SlopeOf(o, p), SlopeOf(o, s[0])) then
      InsertFront(o, p, s);
      [p] + s
    else
      var t := Insert(o, p, s[1..]);
      InsertBehind(o, p, s, t);
      assert s == [s[0]] + s[1..];
      [s[0]] + t
  }

  /** `p` may go first when its key is at most the first one. */
  lemma InsertFront(o: Point, p: Point, s: seq<Point>)
    requires SortedBySlope(o, s)
    requires |s| == 0 || SlopeLe(SlopeOf(o, p), SlopeOf(o, s[0]))
    ensures SortedBySlope(o, [p] + s)
  {
    forall j | 0 <= j < |s| ensures SlopeLe(SlopeOf(o, p), SlopeOf(o, s[j])) {
      if j > 0 {
        assert SlopeLe(SlopeOf(o, s[0]), SlopeOf(o, s[j]));
      }
      SlopeLeTotalOrder(SlopeOf(o, p), SlopeOf(o, s[0]), SlopeOf(o, s[j]));
    }
    forall i, j | 0 <= i < j < |[p] + s| ensures SlopeLe(SlopeOf(o, ([p] + s)[i]), SlopeOf(o, ([p] + s)[j])) {
      if i > 0 {
        assert ([p] + s)[i] == s[i - 1] && ([p] + s)[j] == s[j - 1];
      } else {
        assert ([p] + s)[j] == s[j - 1];
      }
    }
  }

  /** The first element may stay in front of the insertion into the rest
      when `p`'s key is larger than its own. */
  lemma InsertBehind(o: Point, p: Point, s: seq<Point>, t: seq<Point>)
    requires SortedBySlope(o, s) && |s| > 0
    requires !SlopeLe(SlopeOf(o, p), SlopeOf(o, s[0]))
    requires SortedBySlope(o, t)
    requires forall j :: 0 <= j < |t| ==> t[j] == p || t[j] in s[1..]
    ensures SortedBySlope(o, [s[0]] + t)
    ensures forall j :: 0 <= j < |[s[0]] + t| ==> ([s[0]] + t)[j] == p || ([s[0]] + t)[j] in s
  {
    var r := [s[0]] + t;
    forall j | 0 <= j < |t| ensures SlopeLe(SlopeOf(o, s[0]), SlopeOf(o, t[j])) && (t[j] == p || t[j] in s) {
      if t[j] == p {
        SlopeLeTotalOrder(SlopeOf(o, p), SlopeOf(o, s[0]), SlopeOf(o, p));
      } else {
        var k :| 0 <= k < |s[1..]| && s[1..][k] == t[j];
        assert s[k + 1] == t[j];
      }
    }
    forall i, j | 0 <= i < j < |r| ensures SlopeLe(SlopeOf(o, r[i]), SlopeOf(o, r[j])) {
      assert r[j] == t[j - 1];
      if i > 0 {
        assert r[i] == t[i - 1];
      }
    }
    forall j | 0 <= j < |r| ensures r[j] == p || r[j] in s {
      if j > 0 {
        assert r[j] == t[j - 1];
      }
    }
  }

  /** Python's stable `sort(key=slope from o)`, as an insertion sort. */
  function SortBySlope(o: Point, s: seq<Point>): (r: seq<Point>)
    ensures multiset(r) == multiset(s)
    ensures |r| == |s|
    ensures SortedBySlope(o, r)
  {
    if |s| == 0 then []
    else
      assert s == [s[0]] + s[1..];
      Insert(o, s[0], SortBySlope(o, s[1..]))
  }

  /** The elements of `s` whose key from `o` is `k`, in order. */
  function WithSlope(o: Point, s: seq<Point>, k: Slope): seq<Point>
  {
    if |s| == 0 then []
    else (if SlopeOf(o, s[0]) == k then [s[0]] else []) + WithSlope(o, s[1..], k)
  }

  /** A sort is stable when, for every key, the elements with that key keep
      their relative order. */
  ghost predicate StableSortOf(o: Point, r: seq<Point>, s: seq<Point>)
  {
    SortedBySlope(o, r) && forall k :: WithSlope(o, r, k) == WithSlope(o, s, k)
  }

  lemma {:induction false} InsertKeepsKeyOrder(o: Point, p: Point, s: seq<Point>, k: Slope)
    requires SortedBySlope(o, s)
    ensures WithSlope(o, Insert(o, p, s), k)
         == (if SlopeOf(o, p) == k then [p] else []) + WithSlope(o, s, k)
  {
    if |s| == 0 || SlopeLe(SlopeOf(o, p), SlopeOf(o, s[0])) {
      assert Insert(o, p, s) == [p] + s;
      WithSlopeCons(o, p, s, k);
    } else {
      var t := Insert(o, p, s[1..]);
      assert Insert(o, p, s) == [s[0]] + t;
      InsertKeepsKeyOrder(o, p, s[1..], k);
      KeysBehind(o, p, s, t, k);
    }
  }

  /** When `p` goes behind the first element, the elements of key `k`
      gain `p` (if it has key `k`) just where they gain it in the rest. */
  lemma KeysBehind(o: Point, p: Point, s: seq<Point>, t: seq<Point>, k: Slope)
    requires |s| > 0 && !SlopeLe(SlopeOf(o, p), SlopeOf(o, s[0]))
    requires WithSlope(o, t, k) == (if SlopeOf(o, p) == k then [p] else []) + WithSlope(o, s[1..], k)
    ensures WithSlope(o, [s[0]] + t, k) == (if SlopeOf(o, p) == k then [p] else []) + WithSlope(o, s, k)
  {
    WithSlopeCons(o, s[0], t, k);
    WithSlopeCons(o, s[0], s[1..], k);
    assert s == [s[0]] + s[1..];
    if SlopeOf(o, p) == k {
      assert SlopeOf(o, s[0]) != k;
    }
  }

  /** The elements of key `k` in a list with one more element in front. */
  lemma WithSlopeCons(o: Point, x: Point, t: seq<Point>, k: Slope)
    ensures WithSlope(o, [x] + t, k) == (if SlopeOf(o, x) == k then [x] else []) + WithSlope(o, t, k)
  {
    assert ([x] + t)[0] == x && ([x] + t)[1..] == t;
  }

  /** The insertion sort is a stable sort. */
  lemma {:induction false} SortBySlopeStable(o: Point, s: seq<Point>)
    ensures StableSortOf(o, SortBySlope(o, s), s)
  {
    if |s| > 0 {
      SortBySlopeStable(o, s[1..]);
      forall k ensures WithSlope(o, SortBySlope(o, s), k) == WithSlope(o, s, k) {
        InsertKeepsKeyOrder(o, s[0], SortBySlope(o, s[1..]), k);
      }
    }
  }

  lemma {:induction false} WithSlopeFirst(o: Point, s: seq<Point>)
    requires |s| > 0
    ensures WithSlope(o, s, SlopeOf(o, s[0])) != []
    ensures WithSlope(o, s, SlopeOf(o, s[0]))[0] == s[0]
  {
  }

  lemma {:induction false} WithSlopeMember(o: Point, s: seq<Point>, k: Slope)
    requires WithSlope(o, s, k) != []
    ensures exists i :: 0 <= i < |s| && SlopeOf(o, s[i]) == k
  {
    if SlopeOf(o, s[0]) != k {
      WithSlopeMember(o, s[1..], k);
      var i :| 0 <= i < |s[1..]| && SlopeOf(o, s[1..][i]) == k;
      assert s[i + 1] == s[1..][i];
    }
  }

  /** A stable sort has only one possible result: Python's `list.sort`
      and the insertion sort above agree on every input. */
  lemma {:induction false} StableSortUnique(o: Point, a: seq<Point>, b: seq<Point>)
    requires SortedBySlope(o, a) && SortedBySlope(o, b)
    requires forall k :: WithSlope(o, a, k) == WithSlope(o, b, k)
    ensures a == b
  {
    if |a| == 0 {
      if |b| > 0 {
        WithSlopeFirst(o, b);
        assert false;
      }
    } else if |b| == 0 {
      WithSlopeFirst(o, a);
      assert false;
    } else {
      var ka, kb := SlopeOf(o, a[0]), SlopeOf(o, b[0]);
      WithSlopeFirst(o, a);
      WithSlopeFirst(o, b);
      WithSlopeMember(o, b, ka);
      var i :| 0 <= i < |b| && SlopeOf(o, b[i]) == ka;
      WithSlopeMember(o, a, kb);
      var j :| 0 <= j < |a| && SlopeOf(o, a[j]) == kb;
      assert SlopeLe(kb, ka) by {
        if i > 0 { assert SlopeLe(SlopeOf(o, b[0]), SlopeOf(o, b[i])); }
      }
      assert SlopeLe(ka, kb) by {
        if j > 0 { assert SlopeLe(SlopeOf(o, a[0]), SlopeOf(o, a[j])); }
      }
      SlopeLeTotalOrder(ka, kb, ka);
      assert ka == kb;
      assert a[0] == b[0];
      forall k ensures WithSlope(o, a[1..], k) == WithSlope(o, b[1..], k) {
        assert WithSlope(o, a, k) == WithSlope(o, b, k);
        if k == ka {
          assert WithSlope(o, a, k) == [a[0]] + WithSlope(o, a[1..], k);
          assert WithSlope(o, b, k) == [b[0]] + WithSlope(o, b[1..], k);
          assert ([a[0]] + WithSlope(o, a[1..], k))[1..] == WithSlope(o, a[1..], k);
          assert ([b[0]] + WithSlope(o, b[1..], k))[1..] == WithSlope(o, b[1..], k);
        } else {
          assert WithSlope(o, a, k) == WithSlope(o, a[1..], k);
          assert WithSlope(o, b, k) == WithSlope(o, b[1..], k);
        }
      }
      StableSortUnique(o, a[1..], b[1..]);
      assert a == [a[0]] + a[1..] && b == [b[0]] + b[1..];
    }
  }

  /** Re-sorting an already sorted sequence changes nothing. */
  lemma {:induction false} SortBySlopeSorted(o: Point, s: seq<Point>)
    requires SortedBySlope(o, s)
    ensures SortBySlope(o, s) == s
  {
    if |s| > 0 {
      assert SortedBySlope(o, s[1..]);
      SortBySlopeSorted(o, s[1..]);
      assert SortBySlope(o, s) == Insert(o, s[0], s[1..]);
      if |s| > 1 {
        assert SlopeLe(SlopeOf(o, s[0]), SlopeOf(o, s[1..][0]));
      }
      assert s == [s[0]] + s[1..];
    }
  }

  /** The sequence without position `i` (`list.pop(i)`). */
  function RemoveAt(s: seq<Point>, i: nat): (r: seq<Point>)
    requires i < |s|
    ensures |r| == |s| - 1
    ensures multiset(r) + multiset{s[i]} == multiset(s)
  {
    assert s == s[..i] + [s[i]] + s[i + 1..];
    s[..i] + s[i + 1..]
  }

  /** The start point first, then every other point in ascending slope from
      it: the reordering `calculate_convex_hull` applies to its argument and
      `sort_counterclockwise` applies to a cell. */
  function CanonicalOrder(s: seq<Point>): (r: seq<Point>)
    requires |s| >= 1
    ensures |r| == |s|
    ensures multiset(r) == multiset(s)
    ensures r[0] == s[StartIndex(s)]
    ensures forall k :: 0 <= k < |r| ==> LeftTop(r[0], r[k])
    ensures SortedBySlope(r[0], r[1..])
  {
    var i := StartIndex(s);
    var rest := SortBySlope(s[i], RemoveAt(s, i));
    StartFirst(s, i, rest);
    [s[i]] + rest
  }

  /** Putting the start point in front of the other points, in any order,
      keeps the points and leaves the start left-top of every one. */
  lemma StartFirst(s: seq<Point>, i: nat, rest: seq<Point>)
    requires IsStart(s, i) && multiset(rest) == multiset(RemoveAt(s, i))
    ensures var r := [s[i]] + rest;
      && multiset(r) == multiset(s) && r[1..] == rest
      && forall k :: 0 <= k < |r| ==> LeftTop(r[0], r[k])
  {
    var r := [s[i]] + rest;
    assert r[1..] == rest;
    assert multiset(r) == multiset(s);
    forall k | 0 <= k < |r| ensures LeftTop(r[0], r[k]) {
      assert r[k] in multiset(r);
      var j :| 0 <= j < |s| && s[j] == r[k];
    }
  }

  /** A list whose first position is its start point and whose other
      points ascend in slope from it is its own canonical order. */
  lemma CanonicalOrderFixed(t: seq<Point>)
    requires IsStart(t, 0) && SortedBySlope(t[0], t[1..])
    ensures CanonicalOrder(t) == t
  {
    StartUnique(t, 0, StartIndex(t));
    assert RemoveAt(t, 0) == t[1..];
    SortBySlopeSorted(t[0], t[1..]);
    assert t == [t[0]] + t[1..];
  }

  /** Sorting a cell that is already in canonical order leaves it as it is. */
  lemma CanonicalOrderIdempotent(s: seq<Point>)
    requires |s| >= 1
    ensures CanonicalOrder(CanonicalOrder(s)) == CanonicalOrder(s)
  {
    var t := CanonicalOrder(s);
    assert IsStart(t, 0);
    CanonicalOrderFixed(t);
  }
}
