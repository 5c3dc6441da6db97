/** `lab4/regions.py`: grouping the set pixels of an image into 8-connected
    regions by an explicit-stack flood fill, and the mean pixel of each
    region. Bitmaps are indexed `b[x][y]`, width first, as in the source. */
module Regions {
  import opened Geometry
  import opened Results

  /** An integer pixel position (the source's `(x, y)` tuple). */
  datatype Pixel = Pixel(x: int, y: int)

  /** A boolean image stored column by column: `b[x][y]`. */
  type Bitmap = seq<seq<bool>>

  /** `b` has `w` columns of `h` entries each. */
  predicate Shaped(b: Bitmap, w: nat, h: nat)
  {
    |b| == w && forall x :: 0 <= x < w ==> |b[x]| == h
  }

  predicate Inside(p: Pixel, w: nat, h: nat)
  {
    0 <= p.x < w && 0 <= p.y < h
  }

  /** At least one pixel away from every border, so that all eight
      neighbours are inside the image. */
  predicate Interior(p: Pixel, w: nat, h: nat)
  {
    1 <= p.x <= w - 2 && 1 <= p.y <= h - 2
  }

  /** The entry of `b` at `p`; positions off the bitmap read as unset. */
  predicate At(b: Bitmap, p: Pixel)
  {
    0 <= p.x < |b| && 0 <= p.y < |b[p.x]| && b[p.x][p.y]
  }

  /** `b[p.x][p.y] = True`. */
  function Mark(b: Bitmap, p: Pixel): (r: Bitmap)
    requires 0 <= p.x < |b| && 0 <= p.y < |b[p.x]|
    ensures |r| == |b| && forall x :: 0 <= x < |b| ==> |r[x]| == |b[x]|
    ensures forall q :: At(r, q) <==> At(b, q) || q == p
  {
    b[p.x := b[p.x][p.y := true]]
  }

  /** `get_empty_bitmap`. */
  function GetEmptyBitmap(w: nat, h: nat): (b: Bitmap)
    ensures Shaped(b, w, h)
    ensures forall p :: !At(b, p)
  {
    seq(w, _ => seq(h, _ => false))
  }

  /** `get_image_bitmap`: the points set, one after the other, on an empty
      bitmap. */
  function GetImageBitmap(points: seq<Pixel>, w: nat, h: nat): (b: Bitmap)
    requires forall p :: p in points ==> Inside(p, w, h)
    ensures Shaped(b, w, h)
    ensures forall q :: At(b, q) <==> q in points
  {
    if |points| == 0 then GetEmptyBitmap(w, h)
    else
      var init, last := points[..|points| - 1], points[|points| - 1];
      assert points == init + [last];
      var b := GetImageBitmap(init, w, h);
      assert last in points && Inside(last, w, h);
      assert |b[last.x]| == h;
      Mark(b, last)
  }

  /** Python's reading of index `i` into a list of length `n`: a negative
      index counts from the end, and any other index out of range raises
      IndexError (`None`). */
  function PyIndex(i: int, n: nat): (r: Option<nat>)
    ensures r.Some? <==> -(n as int) <= i < n
    ensures r.Some? ==> r.value < n && (r.value == i || r.value == i + n)
  {
    if 0 <= i < n then Some(i)
    else if -(n as int) <= i < 0 then Some(i + n)
    else None
  }

  /** `b[p.x][p.y]` as Python evaluates it; `None` is the IndexError. On
      the bitmap it is the entry itself; a negative coordinate reads the
      entry that many places before the end of its list. */
  function Read(b: Bitmap, p: Pixel): (r: Option<bool>)
    ensures 0 <= p.x < |b| && 0 <= p.y < |b[p.x]| ==> r == Some(At(b, p))
    ensures !(-(|b| as int) <= p.x < |b|) ==> r.None?
    ensures 0 <= p.x < |b| && !(-(|b[p.x]| as int) <= p.y < |b[p.x]|) ==> r.None?
    ensures -(|b| as int) <= p.x < |b| ==>
      var x := if p.x < 0 then p.x + |b| else p.x;
      && (!(-(|b[x]| as int) <= p.y < |b[x]|) ==> r.None?)
      && (-(|b[x]| as int) <= p.y < |b[x]| ==>
            r == Some(At(b, Pixel(x, if p.y < 0 then p.y + |b[x]| else p.y))))
  {
    match PyIndex(p.x, |b|)
    case None => None
    case Some(x) =>
      match PyIndex(p.y, |b[x]|)
      case None => None
      case Some(y) => Some(b[x][y])
  }

  /** Why `get_start_point_i` raises: the point at `index` is off the
      visited bitmap. */
  datatype StartError = IndexError(index: nat)

  /** `get_start_point_i`: the first position from `last` on whose point is
      not yet visited, or -1; it raises at the first point before that
      one that `visited[x][y]` cannot read. */
  function GetStartPointIndex(points: seq<Pixel>, visited: Bitmap, last: nat): (r: Result<int, StartError>)
    ensures r.Success? ==> r.value == -1 || last <= r.value < |points|
    ensures r == Success(-1) <==> forall k :: last <= k < |points| ==> Read(visited, points[k]) == Some(true)
    ensures r.Success? && r.value >= 0 ==> Read(visited, points[r.value]) == Some(false)
    ensures r.Success? && r.value >= 0 ==> forall k :: last <= k < r.value ==> Read(visited, points[k]) == Some(true)
    ensures r.Failure? ==> last <= r.error.index < |points| && Read(visited, points[r.error.index]).None?
    ensures r.Failure? ==> forall k :: last <= k < r.error.index ==> Read(visited, points[k]) == Some(true)
    decreases |points| - last
  {
    if last >= |points| then Success(-1)
    else
      match Read(visited, points[last])
      case None => Failure(IndexError(last))
      case Some(seen) =>
        if seen then GetStartPointIndex(points, visited, last + 1) else Success(last)
  }

  /** `q` is one of the nine pixels of the 3 x 3 block centred on `p`
      (`p` itself included, as the source's deltas are). */
  predicate Adjacent(p: Pixel, q: Pixel)
  {
    -1 <= q.x - p.x <= 1 && -1 <= q.y - p.y <= 1
  }

  /** Set pixels that are not yet visited; it shrinks with every first
      visit. */
  function Pending(bitmap: Bitmap, visited: Bitmap, w: nat, h: nat): set<Pixel>
  {
    set x, y | 0 <= x < w && 0 <= y < h && At(bitmap, Pixel(x, y)) && !At(visited, Pixel(x, y)) :: Pixel(x, y)
  }

  /** Visiting `p` removes it from the pending pixels if it was pending,
      and changes nothing otherwise. */
  lemma PendingStep(bitmap: Bitmap, visited: Bitmap, visited': Bitmap, w: nat, h: nat, p: Pixel)
    requires forall q :: At(visited', q) <==> At(visited, q) || q == p
    requires Inside(p, w, h) && At(bitmap, p)
    ensures At(visited, p) ==> Pending(bitmap, visited', w, h) == Pending(bitmap, visited, w, h)
    ensures !At(visited, p) ==> Pending(bitmap, visited', w, h) == Pending(bitmap, visited, w, h) - {p}
    ensures !At(visited, p) ==> |Pending(bitmap, visited', w, h)| < |Pending(bitmap, visited, w, h)|
  {
    var before, after := Pending(bitmap, visited, w, h), Pending(bitmap, visited', w, h);
    if At(visited, p) {
      assert after == before;
    } else {
      assert p in before;
      assert after == before - {p};
    }
  }

  /** Every visited pixel has each set neighbour visited too. */
  ghost predicate Closed(bitmap: Bitmap, visited: Bitmap)
  {
    forall q, nb :: At(visited, q) && Adjacent(q, nb) && At(bitmap, nb) ==> At(visited, nb)
  }

  /** The two inner `for` loops of `find_regions`: push every set, unvisited
      pixel of the 3 x 3 block around `p`, x-delta outermost. */
  method PushNeighbours(bitmap: Bitmap, visited: Bitmap, p: Pixel, stack: seq<Pixel>)
    returns (r: seq<Pixel>)
    ensures |r| >= |stack| && r[..|stack|] == stack
    ensures forall k :: |stack| <= k < |r| ==> Adjacent(p, r[k]) && At(bitmap, r[k]) && !At(visited, r[k])
    ensures forall nb :: Adjacent(p, nb) && At(bitmap, nb) && !At(visited, nb) ==> nb in r[|stack|..]
  {
    r := stack;
    var dx := -1;
    while dx < 2
      invariant -1 <= dx <= 2
      invariant |r| >= |stack| && r[..|stack|] == stack
      invariant forall k :: |stack| <= k < |r| ==> Adjacent(p, r[k]) && At(bitmap, r[k]) && !At(visited, r[k])
      invariant forall nb :: Adjacent(p, nb) && nb.x - p.x < dx && At(bitmap, nb) && !At(visited, nb) ==> nb in r[|stack|..]
    {
      var dy := -1;
      while dy < 2
        invariant -1 <= dy <= 2
        invariant |r| >= |stack| && r[..|stack|] == stack
        invariant forall k :: |stack| <= k < |r| ==> Adjacent(p, r[k]) && At(bitmap, r[k]) && !At(visited, r[k])
        invariant forall nb :: Adjacent(p, nb) && nb.x - p.x < dx && At(bitmap, nb) && !At(visited, nb) ==> nb in r[|stack|..]
        invariant forall nb :: Adjacent(p, nb) && nb.x - p.x == dx && nb.y - p.y < dy && At(bitmap, nb) && !At(visited, nb) ==> nb in r[|stack|..]
      {
        var nb := Pixel(p.x + dx, p.y + dy);
        if At(bitmap, nb) && !At(visited, nb) {
          r := r + [nb];
          assert r[|stack|..] == r[|stack|..|r| - 1] + [nb];
        }
        dy := dy + 1;
      }
      dx := dx + 1;
    }
  }

  /** Every visited pixel on the stack has its unvisited set neighbours
      above it on the stack. */
  ghost predicate NeighboursAbove(bitmap: Bitmap, visited: Bitmap, stack: seq<Pixel>)
  {
    forall k, nb :: 0 <= k < |stack| && At(visited, stack[k]) && Adjacent(stack[k], nb)
                    && At(bitmap, nb) && !At(visited, nb)
                    ==> exists m :: k < m < |stack| && stack[m] == nb
  }

  /** Every set neighbour of a visited pixel is visited or still on the
      stack. */
  ghost predicate ClosedUpTo(bitmap: Bitmap, visited: Bitmap, stack: seq<Pixel>)
  {
    forall q, nb :: At(visited, q) && Adjacent(q, nb) && At(bitmap, nb) ==> At(visited, nb) || nb in stack
  }

  /** What one pass of the flood loop does to the stack: pop `p`, mark it,
      push its set neighbours that are still unvisited. */
  ghost predicate FloodStep(bitmap: Bitmap, visited: Bitmap, stack: seq<Pixel>, visited': Bitmap, stack': seq<Pixel>)
  {
    && |stack| > 0
    && (forall q :: At(visited', q) <==> At(visited, q) || q == stack[|stack| - 1])
    && |stack'| >= |stack| - 1 && stack'[..|stack| - 1] == stack[..|stack| - 1]
    && (forall k :: |stack| - 1 <= k < |stack'| ==>
          Adjacent(stack[|stack| - 1], stack'[k]) && At(bitmap, stack'[k]) && !At(visited', stack'[k]))
    && (forall nb :: Adjacent(stack[|stack| - 1], nb) && At(bitmap, nb) && !At(visited', nb) ==>
          nb in stack'[|stack| - 1..])
  }

  /** Popping a pixel that was visited already pushes nothing. */
  lemma SeenPushesNothing(bitmap: Bitmap, visited: Bitmap, stack: seq<Pixel>, visited': Bitmap, stack': seq<Pixel>)
    requires FloodStep(bitmap, visited, stack, visited', stack')
    requires NeighboursAbove(bitmap, visited, stack)
    requires At(visited, stack[|stack| - 1])
    ensures |stack'| == |stack| - 1
  {
    var top := |stack| - 1;
    var p, pushed := stack[top], stack'[top..];
    assert forall nb :: nb in pushed ==> Adjacent(p, nb) && At(bitmap, nb) && !At(visited, nb);
    assert forall nb :: nb !in pushed;
    assert multiset(pushed) == multiset{};
  }

  lemma NeighboursAboveStep(bitmap: Bitmap, visited: Bitmap, stack: seq<Pixel>, visited': Bitmap, stack': seq<Pixel>)
    requires FloodStep(bitmap, visited, stack, visited', stack')
    requires NeighboursAbove(bitmap, visited, stack)
    ensures NeighboursAbove(bitmap, visited', stack')
  {
    var top, p := |stack| - 1, stack[|stack| - 1];
    forall k, nb | 0 <= k < |stack'| && At(visited', stack'[k]) && Adjacent(stack'[k], nb)
                   && At(bitmap, nb) && !At(visited', nb)
      ensures exists m :: k < m < |stack'| && stack'[m] == nb
    {
      if k < top {
        assert stack'[k] == stack[k];
        if stack[k] == p {
          assert nb in stack'[top..];
          var m :| top <= m < |stack'| && stack'[m] == nb;
        } else {
          var m :| k < m < |stack| && stack[m] == nb;
          assert stack'[m] == nb;
        }
      }
    }
  }

  lemma ClosedUpToStep(bitmap: Bitmap, visited: Bitmap, stack: seq<Pixel>, visited': Bitmap, stack': seq<Pixel>)
    requires FloodStep(bitmap, visited, stack, visited', stack')
    requires ClosedUpTo(bitmap, visited, stack)
    ensures ClosedUpTo(bitmap, visited', stack')
  {
    var top, p := |stack| - 1, stack[|stack| - 1];
    forall q, nb | At(visited', q) && Adjacent(q, nb) && At(bitmap, nb)
      ensures At(visited', nb) || nb in stack'
    {
      if q != p && !At(visited', nb) {
        var m :| 0 <= m < |stack| && stack[m] == nb;
        assert stack'[m] == nb;
      } else if !At(visited', nb) {
        assert nb in stack'[top..];
      }
    }
  }

  /** Every pixel on the stack is set and was unvisited when the flood
      began. */
  ghost predicate Unvisited(bitmap: Bitmap, visited0: Bitmap, stack: seq<Pixel>)
  {
    forall k :: 0 <= k < |stack| ==> At(bitmap, stack[k]) && !At(visited0, stack[k])
  }

  lemma UnvisitedStep(bitmap: Bitmap, visited0: Bitmap, visited: Bitmap, stack: seq<Pixel>,
                      visited': Bitmap, stack': seq<Pixel>)
    requires FloodStep(bitmap, visited, stack, visited', stack')
    requires forall q :: At(visited0, q) ==> At(visited, q)
    requires Unvisited(bitmap, visited0, stack)
    ensures Unvisited(bitmap, visited0, stack')
  {
    forall k | 0 <= k < |stack'| ensures At(bitmap, stack'[k]) && !At(visited0, stack'[k]) {
      if k < |stack| - 1 {
        assert stack'[k] == stack[k];
      }
    }
  }

  /** The loop invariant of the flood: `visited` is `visited0` plus the
      region, whose pixels were all set and unvisited; the stack holds set
      pixels that were unvisited at the start. */
  ghost predicate FloodInv(bitmap: Bitmap, visited0: Bitmap, w: nat, h: nat, start: Pixel,
                           region: seq<Pixel>, visited: Bitmap, stack: seq<Pixel>)
  {
    && Shaped(visited, w, h)
    && (forall q :: At(visited, q) <==> At(visited0, q) || q in region)
    && (forall q :: q in region ==> At(bitmap, q) && !At(visited0, q))
    && Unvisited(bitmap, visited0, stack)
    && (|region| == 0 ==> stack == [start])
    && (|region| > 0 ==> region[0] == start)
    && NeighboursAbove(bitmap, visited, stack)
    && ClosedUpTo(bitmap, visited, stack)
  }

  /** One pass of the flood loop keeps the invariant, and either visits a
      new pixel or shortens the stack. */
  lemma FloodInvStep(bitmap: Bitmap, visited0: Bitmap, w: nat, h: nat, start: Pixel,
                     region: seq<Pixel>, visited: Bitmap, stack: seq<Pixel>, visited': Bitmap, stack': seq<Pixel>)
    requires forall q :: At(bitmap, q) ==> Interior(q, w, h)
    requires FloodInv(bitmap, visited0, w, h, start, region, visited, stack)
    requires FloodStep(bitmap, visited, stack, visited', stack') && Shaped(visited', w, h)
    ensures FloodInv(bitmap, visited0, w, h, start, region + [stack[|stack| - 1]], visited', stack')
    ensures || |Pending(bitmap, visited', w, h)| < |Pending(bitmap, visited, w, h)|
            || (|Pending(bitmap, visited', w, h)| == |Pending(bitmap, visited, w, h)| && |stack'| < |stack|)
  {
    var p := stack[|stack| - 1];
    assert At(bitmap, p) && !At(visited0, p);
    PendingStep(bitmap, visited, visited', w, h, p);
    if At(visited, p) {
      SeenPushesNothing(bitmap, visited, stack, visited', stack');
    }
    UnvisitedStep(bitmap, visited0, visited, stack, visited', stack');
    NeighboursAboveStep(bitmap, visited, stack, visited', stack');
    ClosedUpToStep(bitmap, visited, stack, visited', stack');
  }

  /** The inner `while to_visit` loop of `find_regions`: flood the region
      of `start` with an explicit stack. A popped pixel is marked visited
      and appended to the region even when it was visited already, so a
      region may list a pixel more than once. */
  method Flood(bitmap: Bitmap, visited0: Bitmap, w: nat, h: nat, start: Pixel)
    returns (region: seq<Pixel>, visited: Bitmap)
    requires Shaped(bitmap, w, h) && Shaped(visited0, w, h)
    requires forall q :: At(bitmap, q) ==> Interior(q, w, h)
    requires forall q :: At(visited0, q) ==> At(bitmap, q)
    requires Closed(bitmap, visited0)
    requires At(bitmap, start) && !At(visited0, start)
    ensures Shaped(visited, w, h)
    ensures |region| > 0 && region[0] == start
    ensures forall q :: At(visited, q) <==> At(visited0, q) || q in region
    ensures forall q :: q in region ==> At(bitmap, q) && !At(visited0, q)
    ensures forall q, nb :: q in region && Adjacent(q, nb) && At(bitmap, nb) ==> nb in region
  {
    visited := visited0;
    region := [];
    var stack := [start];
    while |stack| > 0
      invariant FloodInv(bitmap, visited0, w, h, start, region, visited, stack)
      decreases |Pending(bitmap, visited, w, h)|, |stack|
    {
      var p := stack[|stack| - 1];
      assert At(bitmap, p);
      assert Interior(p, w, h) && |visited[p.x]| == h;
      var visited' := Mark(visited, p);
      var stack' := PushNeighbours(bitmap, visited', p, stack[..|stack| - 1]);
      FloodInvStep(bitmap, visited0, w, h, start, region, visited, stack, visited', stack');
      visited, region, stack := visited', region + [p], stack';
    }
    assert ClosedUpTo(bitmap, visited, stack);
    forall q, nb | q in region && Adjacent(q, nb) && At(bitmap, nb) ensures nb in region {
      if At(visited0, nb) {
        assert Adjacent(nb, q);
      }
    }
  }

  /** Some region lists `q`. */
  predicate Covered(regions: seq<seq<Pixel>>, q: Pixel)
  {
    exists a :: 0 <= a < |regions| && q in regions[a]
  }

  lemma CoveredAppend(regions: seq<seq<Pixel>>, region: seq<Pixel>, q: Pixel)
    ensures Covered(regions + [region], q) <==> Covered(regions, q) || q in region
  {
    var all := regions + [region];
    if q in region {
      assert all[|regions|] == region;
    }
    if Covered(regions, q) {
      var a :| 0 <= a < |regions| && q in regions[a];
      assert all[a] == regions[a];
    }
    if Covered(all, q) {
      var a :| 0 <= a < |all| && q in all[a];
      if a < |regions| {
        assert all[a] == regions[a];
      }
    }
  }

  /** More visited pixels, one of them newly, leave fewer pending. */
  lemma PendingDecreases(bitmap: Bitmap, v0: Bitmap, v1: Bitmap, w: nat, h: nat, p: Pixel)
    requires forall q :: At(v0, q) ==> At(v1, q)
    requires Inside(p, w, h) && At(bitmap, p) && !At(v0, p) && At(v1, p)
    ensures |Pending(bitmap, v1, w, h)| < |Pending(bitmap, v0, w, h)|
  {
    var before, after := Pending(bitmap, v0, w, h), Pending(bitmap, v1, w, h);
    assert p in before && p !in after;
    assert after <= before - {p};
    SubsetCardinality(after, before - {p});
  }

  lemma {:induction false} SubsetCardinality<T>(a: set<T>, b: set<T>)
    requires a <= b
    ensures |a| <= |b|
    decreases |b|
  {
    if a != {} {
      var x :| x in a;
      SubsetCardinality(a - {x}, b - {x});
    }
  }

  /** The invariant of the outer loop of `find_regions`: the visited
      pixels are exactly those of the regions found so far, which are
      non-empty, pairwise disjoint and closed under adjacency among set
      pixels. */
  ghost predicate RegionsInv(bitmap: Bitmap, w: nat, h: nat, regions: seq<seq<Pixel>>, visited: Bitmap)
  {
    && Shaped(visited, w, h)
    && (forall q :: At(visited, q) ==> At(bitmap, q))
    && Closed(bitmap, visited)
    && (forall q :: At(visited, q) <==> Covered(regions, q))
    && (forall a :: 0 <= a < |regions| ==> |regions[a]| > 0)
    && (forall a, b, q :: 0 <= a < b < |regions| && q in regions[a] ==> q !in regions[b])
    && (forall a, q, nb :: 0 <= a < |regions| && q in regions[a] && Adjacent(q, nb) && At(bitmap, nb)
          ==> nb in regions[a])
  }

  /** Appending a flooded region keeps the invariant. */
  lemma AppendRegion(bitmap: Bitmap, w: nat, h: nat, regions: seq<seq<Pixel>>, visited: Bitmap,
                     region: seq<Pixel>, visited': Bitmap)
    requires RegionsInv(bitmap, w, h, regions, visited)
    requires Shaped(visited', w, h) && |region| > 0
    requires forall q :: At(visited', q) <==> At(visited, q) || q in region
    requires forall q :: q in region ==> At(bitmap, q) && !At(visited, q)
    requires forall q, nb :: q in region && Adjacent(q, nb) && At(bitmap, nb) ==> nb in region
    ensures RegionsInv(bitmap, w, h, regions + [region], visited')
  {
    var all := regions + [region];
    forall q ensures At(visited', q) <==> Covered(all, q) {
      CoveredAppend(regions, region, q);
    }
    forall a, b, q | 0 <= a < b < |all| && q in all[a] ensures q !in all[b] {
      assert all[a] == regions[a];
      if b == |regions| {
        assert Covered(regions, q);
      } else {
        assert all[b] == regions[b];
      }
    }
    forall a, q, nb | 0 <= a < |all| && q in all[a] && Adjacent(q, nb) && At(bitmap, nb) ensures nb in all[a] {
      if a < |regions| {
        assert all[a] == regions[a];
      }
    }
  }

  /** With every point inside a `w` by `h` bitmap, reading a point never
      raises and never wraps around. */
  lemma ReadOnBitmap(points: seq<Pixel>, visited: Bitmap, w: nat, h: nat)
    requires Shaped(visited, w, h) && forall p :: p in points ==> Inside(p, w, h)
    ensures forall k :: 0 <= k < |points| ==> Read(visited, points[k]) == Some(At(visited, points[k]))
  {
    forall k | 0 <= k < |points| ensures Read(visited, points[k]) == Some(At(visited, points[k])) {
      assert points[k] in points;
    }
  }

  /** Every point before position `start` is visited. */
  ghost predicate SeenBefore(points: seq<Pixel>, visited: Bitmap, start: nat)
  {
    forall k :: 0 <= k < start && k < |points| ==> At(visited, points[k])
  }

  /** The search for an unvisited point from `start` cannot raise; it
      finds none only when every point is visited, and otherwise an
      unvisited point with every point before it visited. */
  lemma StartSearch(points: seq<Pixel>, visited: Bitmap, w: nat, h: nat, start: nat)
    requires Shaped(visited, w, h) && forall p :: p in points ==> Inside(p, w, h)
    requires SeenBefore(points, visited, start)
    ensures var r := GetStartPointIndex(points, visited, start);
      && r.Success?
      && (r.value == -1 ==> forall p :: p in points ==> At(visited, p))
      && (r.value != -1 ==> 0 <= r.value < |points| && !At(visited, points[r.value])
                            && SeenBefore(points, visited, r.value))
  {
    ReadOnBitmap(points, visited, w, h);
    var r := GetStartPointIndex(points, visited, start);
    if r == Success(-1) {
      forall p | p in points ensures At(visited, p) {
        var k :| 0 <= k < |points| && points[k] == p;
        if k >= start {
          assert Read(visited, points[k]) == Some(true);
        }
      }
    }
  }

  /** Visiting more pixels keeps a visited prefix visited. */
  lemma SeenGrows(points: seq<Pixel>, v0: Bitmap, v1: Bitmap, start: nat)
    requires SeenBefore(points, v0, start) && forall q :: At(v0, q) ==> At(v1, q)
    ensures SeenBefore(points, v1, start)
  {
  }

  /** `find_regions`: the set pixels `points` grouped into regions, one
      flood per first unvisited point in list order. The image size only
      needs to leave every point a pixel away from the border. */
  method FindRegions(points: seq<Pixel>, w: nat, h: nat) returns (regions: seq<seq<Pixel>>)
    requires forall p :: p in points ==> Interior(p, w, h)
    ensures forall a :: 0 <= a < |regions| ==> |regions[a]| > 0
    ensures forall a, q :: 0 <= a < |regions| && q in regions[a] ==> q in points
    ensures forall p :: p in points ==> Covered(regions, p)
    ensures forall a, b, q :: 0 <= a < b < |regions| && q in regions[a] ==> q !in regions[b]
    ensures forall a, q, nb :: 0 <= a < |regions| && q in regions[a] && Adjacent(q, nb) && nb in points
              ==> nb in regions[a]
  {
    var visited := GetEmptyBitmap(w, h);
    var bitmap := GetImageBitmap(points, w, h);
    regions := [];
    var start: nat := 0;
    assert forall p :: p in points ==> Inside(p, w, h);
    while true
      invariant RegionsInv(bitmap, w, h, regions, visited)
      invariant SeenBefore(points, visited, start)
      decreases |Pending(bitmap, visited, w, h)|
    {
      StartSearch(points, visited, w, h, start);
      var found := GetStartPointIndex(points, visited, start);
      if found.Failure? {
        assert false;
      }
      var i := found.value;
      if i == -1 {
        assert forall p :: p in points ==> At(visited, p);
        break;
      }
      start := i;
      var p := points[i];
      var region, visited' := Flood(bitmap, visited, w, h, p);
      AppendRegion(bitmap, w, h, regions, visited, region, visited');
      PendingDecreases(bitmap, visited, visited', w, h, p);
      SeenGrows(points, visited, visited', start);
      regions, visited := regions + [region], visited';
    }
    forall p | p in points ensures Covered(regions, p) {
      assert At(visited, p);
    }
    forall a, q | 0 <= a < |regions| && q in regions[a] ensures q in points {
      assert Covered(regions, q);
    }
  }

  function Sum(s: seq<int>): int
  {
    if |s| == 0 then 0 else Sum(s[..|s| - 1]) + s[|s| - 1]
  }

  function Xs(region: seq<Pixel>): (r: seq<int>)
    ensures |r| == |region| && forall k :: 0 <= k < |r| ==> r[k] == region[k].x
  {
    seq(|region|, k requires 0 <= k < |region| => region[k].x)
  }

  function Ys(region: seq<Pixel>): (r: seq<int>)
    ensures |r| == |region| && forall k :: 0 <= k < |r| ==> r[k] == region[k].y
  {
    seq(|region|, k requires 0 <= k < |region| => region[k].y)
  }

  /** The arithmetic mean of the pixels of a non-empty region. */
  function Mean(region: seq<Pixel>): Point
    requires |region| > 0
  {
    Point(Sum(Xs(region)) as real / |region| as real, Sum(Ys(region)) as real / |region| as real)
  }

  /** `sum(...) / len(region)` on an empty region raises
      ZeroDivisionError; `index` is the first such region. */
  datatype CenterError = EmptyRegion(index: nat)

  /** `find_region_centers`: the mean of each region, in order. */
  function FindRegionCenters(regions: seq<seq<Pixel>>): (r: Result<seq<Point>, CenterError>)
    ensures r.Failure? <==> exists a :: 0 <= a < |regions| && |regions[a]| == 0
    ensures r.Failure? ==> r.error.index < |regions| && |regions[r.error.index]| == 0
    ensures r.Failure? ==> forall a :: 0 <= a < r.error.index ==> |regions[a]| > 0
    ensures r.Success? ==> |r.value| == |regions|
    ensures r.Success? ==> forall a :: 0 <= a < |regions| ==> r.value[a] == Mean(regions[a])
  {
    if |regions| == 0 then Success([])
    else
      var init, last := regions[..|regions| - 1], regions[|regions| - 1];
      match FindRegionCenters(init)
      case Failure(e) => Failure(e)
      case Success(centers) =>
        if |last| == 0 then Failure(EmptyRegion(|regions| - 1))
        else Success(centers + [Mean(last)])
  }

  /** A sum of terms in [lo, hi] lies between `n * lo` and `n * hi`. */
  lemma {:induction false} SumBounds(s: seq<int>, lo: int, hi: int)
    requires forall k :: 0 <= k < |s| ==> lo <= s[k] <= hi
    ensures |s| * lo <= Sum(s) <= |s| * hi
  {
    if |s| > 0 {
      var init := s[..|s| - 1];
      assert forall k :: 0 <= k < |init| ==> init[k] == s[k];
      SumBounds(init, lo, hi);
      assert |s| * lo == |init| * lo + lo;
      assert |s| * hi == |init| * hi + hi;
    }
  }

  /** An average of `n` terms bounded by `n * lo` and `n * hi` lies in
      [lo, hi]. */
  lemma MeanBetween(total: int, n: int, lo: int, hi: int)
    requires n > 0 && n * lo <= total <= n * hi
    ensures lo as real <= total as real / n as real <= hi as real
  {
    var m := total as real / n as real;
    assert m * n as real == total as real;
    assert (m - lo as real) * n as real == total as real - (n * lo) as real;
    assert (hi as real - m) * n as real == (n * hi) as real - total as real;
  }

  /** The center of a region lies in every box holding all of its pixels. */
  lemma MeanInBox(region: seq<Pixel>, lo: Pixel, hi: Pixel)
    requires |region| > 0
    requires forall q :: q in region ==> lo.x <= q.x <= hi.x && lo.y <= q.y <= hi.y
    ensures lo.x as real <= Mean(region).x <= hi.x as real
    ensures lo.y as real <= Mean(region).y <= hi.y as real
  {
    var n := |region|;
    assert forall k :: 0 <= k < n ==> region[k] in region;
    SumBounds(Xs(region), lo.x, hi.x);
    SumBounds(Ys(region), lo.y, hi.y);
    MeanBetween(Sum(Xs(region)), n, lo.x, hi.x);
    MeanBetween(Sum(Ys(region)), n, lo.y, hi.y);
  }
}
