# Convex hull, Voronoi cells and pixel regions, in Dafny

This project models three routines from a computer-graphics course repository and proves properties about them:

- `calculate_convex_hull` (lab3/main.py), a Graham-style stack scan.
- `voronoi` (lab4/voronoi.py), which builds one cell per generator point. Each cell starts as the image rectangle and is clipped against the perpendicular bisector with every other generator. The model covers the `Point`, `Line` and `Cell` helpers the routine uses.
- `find_regions` and `find_region_centers` (lab4/regions.py), an 8-neighbour flood fill over a boolean bitmap with an explicit stack, followed by the mean pixel of each region.

Modules:

- `Results` (results.dfy): the `Option` and `Result` types. `None` stands for a caught division by zero, or for the `IndexError` of a Python index read. `Failure` stands for an exception the code would raise.
- `Geometry` (geometry.dfy): points with exact `real` coordinates and the cross product. It also has the slope key with its `-inf` sentinel, written as `NegInf`, and squared distance.
- `Ordering` (ordering.dfy): the canonical counterclockwise order. The start point is the leftmost, then the topmost, then the earliest. The other points follow in ascending slope from it, under a stable sort. lab3 and lab4 use this same order.
- `Hull` (hull.dfy): the stack scan and `calculate_convex_hull`.
- `Voronoi` (voronoi.dfy): lines, intersections, cell clipping and `voronoi`.
- `Regions` (regions.dfy): bitmaps, the start-point search, the flood fill and the region centers.

What the code does, and what the model therefore states:

- `calculate_convex_hull` raises `IndexError` in three cases:
  - on an empty list (line 80);
  - on input whose points all lie on one line: it reads `points[len(points)]` at line 100;
  - on some non-collinear inputs that repeat the start point, for example (0,0), (0,-1), (0,0), (1,5).

  The model returns `Failure` in these cases. It proves that on input without repeated points the scan succeeds exactly when the points are not all on one line.
- A Voronoi cell is guaranteed a half-plane only for those generators whose bisector actually met it in two points or more. When there are fewer meeting points, the code leaves the cell unchanged, and so does the model.
- A region produced by `find_regions` may list a pixel more than once, because a pixel pushed twice is appended twice.
- `get_start_point_i` reads `visited[x][y]` with Python indexing: a negative coordinate counts from the end, and one past the end raises `IndexError`. The model returns that error as a `Failure` naming the position. `find_regions` is modelled only for points at least one pixel from the image border, which is its precondition here, not something the code checks. On such points the read never raises.

## Model

| member | source | states |
|---|---|---|
| Geometry.SamePoint | lab4/voronoi.py:63-64 | `Point.__eq__` holds exactly when both coordinates agree. |
| Geometry.CrossCyclic | lab3/main.py:160-161 | `cross_product` is unchanged by a cyclic shift of its three points, and is 0 when two of them coincide. |
| Geometry.CrossAntisymmetric | lab3/main.py:160-161 | Swapping the last two arguments of `cross_product` negates it. It is 0 when the third point repeats the first or the second. |
| Geometry.CrossRebase | lab3/main.py:160-161 | The orientation of any triple can be rewritten through triples that share one chosen base point. |
| Geometry.SlopeOf | lab3/main.py:154-157 | `slope` gives the `-inf` sentinel exactly when the x-coordinates are equal. Otherwise the value times the x-difference is the y-difference. |
| Geometry.SlopeLeTotalOrder | lab3/main.py:154-157 | Slope keys, with the sentinel below every real, are totally ordered. |
| Geometry.RawToNormalInvolution | lab3/main.py:146-147 | `transform_coordinates_raw_to_normal` undoes itself: applying it twice gives back the input. The input is a fixed point exactly when its two coordinates are equal. |
| Geometry.Dist2Positive | lab4/voronoi.py:73-78 | Two different points are at positive squared distance, so their bisector is a proper line. |
| Geometry.DistinctPermutation | lab3/main.py:83-85 | Reordering a list without repeated points leaves it without repeated points. |
| Ordering.StartIndex | lab3/main.py:113-125 | `get_starting_point_i` returns the first position of the leftmost point, taking the topmost one among equally left points. On an empty list it returns 0. |
| Ordering.StartDominates | lab3/main.py:113-125 | The start point is at least as far left as every point, and at least as high as every point equally far left. |
| Ordering.StartUnique | lab3/main.py:113-125 | Only one position meets that description, so the strict comparisons fix the answer. |
| Ordering.SortBySlope | lab3/main.py:84 | The sort by slope from the start point is a permutation of its input and is ordered by slope. |
| Ordering.InsertKeepsKeyOrder | lab3/main.py:84 | Inserting a point into a slope-sorted list puts it ahead of every point of equal slope, and keeps the order of the points of each slope. This is the step that makes the sort stable. |
| Ordering.SortBySlopeStable | lab3/main.py:84 | The sort is stable: points with equal slope keep their input order. |
| Ordering.StableSortUnique | lab3/main.py:84 | Two stable sorts of the same list by the same key are equal, so the model's sort is Python's. |
| Ordering.SortBySlopeSorted | lab4/voronoi.py:165 | Sorting an already ordered list leaves it unchanged. |
| Ordering.RemoveAt | lab3/main.py:83 | `list.pop(i)` removes exactly one occurrence of the element at `i`. |
| Ordering.CanonicalOrder | lab3/main.py:79-85 | The reordered list is a permutation of the input. It starts with the start point, every point is dominated by that point, and the rest ascend in slope from it. |
| Ordering.CanonicalOrderFixed | lab3/main.py:79-85 | A list that starts with its start point and ascends in slope from it is its own canonical order. |
| Ordering.CanonicalOrderIdempotent | lab4/voronoi.py:150-166 | Putting a list in canonical order a second time changes nothing. |
| Hull.OverrunMeansCollinear | lab3/main.py:92-106 | In scan order, if the last point has the same slope from the start as position 1, all points lie on one line. So on input without repeated points the scan runs past the end only when the points are collinear. |
| Hull.PopToStartSameKey | lab3/main.py:100-108 | On input without repeated points, the stack is popped back to the start point only between two points of equal slope. |
| Hull.LeftTurnNotCollinear | lab3/main.py:100-104 | A hull containing a strict left turn means the points are not all on one line. |
| Hull.RefillStep | lab3/main.py:93-95 | After the refill the stack holds at least two entries, and is [0, 0] only on the first pass. If the candidate is then one past the end and no point repeats, all points lie on one line. |
| Hull.PushStep | lab3/main.py:100-106 | Pushing a strict left turn keeps the stack increasing and turning left. When the pushed index is the last one, the stack is a valid hull. |
| Hull.PopStep | lab3/main.py:100-108 | Popping after a non-left turn keeps the scan invariant, including the equal-slope fact about the start when the stack shrinks to it. |
| Hull.ScanFrom | lab3/main.py:92-108 | From any loop head that meets the scan invariant, the rest of the loop either returns a valid hull or fails with the `IndexError` of line 100. That failure, on input without repeated points, means all points lie on one line. |
| Hull.Scan | lab3/main.py:87-110 | On success, the hull starts at index 0 and ends at the last index. Its indices strictly increase and every consecutive triple turns strictly left. A failure is the `IndexError` at line 100, and on input without repeated points it happens only when all points lie on one line. |
| Hull.ConvexHull | lab3/main.py:75-110 | Empty input fails. The list is reordered into canonical order. A returned hull is valid and implies the points are not all on one line. Input without repeated points that is not collinear always succeeds. |
| Hull.ScanMissesPoint | lab3/main.py:79-110 | On (0,0), (0,-2), (0,-1), (5,0), which are distinct, not collinear and already in canonical order, the scan returns the indices [0, 2, 3]. The point (0,-2) lies strictly outside that hull. |
| Voronoi.DiversionOffsets | lab4/voronoi.py:93-100 | `diversion` is b times the vertical offset of the point from the line's point with the same x (`get_y`), and a times the horizontal offset from the line's point with the same y (`get_x`). |
| Voronoi.DiversionAffine | lab4/voronoi.py:99-100 | `diversion` is affine along a segment. |
| Voronoi.Separating | lab4/voronoi.py:73-78 | `Line.separating` passes through the midpoint. Its value at point0 is the negative of its value at point1, and it is non-positive at point0. For two different points it is strictly negative at point0 and strictly positive at point1. |
| Voronoi.SeparatingSide | lab4/voronoi.py:73-78 | The bisector's value at any point is half the difference of the squared distances to the two points. It is non-positive exactly when the point is at least as close to point0. |
| Voronoi.Connecting | lab4/voronoi.py:80-91 | `Line.connecting` passes through both points and is never the degenerate line with a = b = 0. |
| Voronoi.GetX | lab4/voronoi.py:93-94 | `get_x` fails exactly when a = 0. Otherwise the point it gives lies on the line. |
| Voronoi.GetY | lab4/voronoi.py:96-97 | `get_y` fails exactly when b = 0. Otherwise the point it gives lies on the line. |
| Voronoi.Intersection | lab4/voronoi.py:102-116 | `Line.intersection` returns `None` exactly when the lines are parallel. Otherwise the point lies on both lines. |
| Voronoi.EdgeHit | lab4/voronoi.py:129-146 | A kept intersection with an edge, including the wrap-around edge, lies on the line, on the edge's line, and inside the edge's bounding box. |
| Voronoi.OnSegment | lab4/voronoi.py:140-144 | A point on the edge's line and inside its bounding box lies on the segment between the two ends. |
| Voronoi.SegmentKeepsSide | lab4/voronoi.py:99-100 | A point of a segment is not strictly on the far side of a line when neither end is. |
| Voronoi.EdgeHitKeepsSide | lab4/voronoi.py:129-146 | An edge hit is not strictly on the far side of any line from a point whose side both edge ends share. |
| Voronoi.Intersections | lab4/voronoi.py:126-148 | `get_intersections` yields each point once, exactly the points some edge's test keeps. |
| Voronoi.CutsDistinct | lab4/voronoi.py:28-34 | A bisector that meets a cell in two points or more comes from two different generators. |
| Voronoi.KeepSide | lab4/voronoi.py:28-34 | An old vertex is kept exactly when it is not strictly on the opposite side of the bisector from the generator. |
| Voronoi.SortCounterclockwise | lab4/voronoi.py:150-166 | `sort_counterclockwise` permutes the cell's vertices into canonical order from the reference point. |
| Voronoi.SortCounterclockwiseIdempotent | lab4/voronoi.py:150-166 | Sorting a sorted cell again changes nothing. |
| Voronoi.Clip | lab4/voronoi.py:16-37 | With fewer than two intersections the cell is unchanged. Otherwise the new cell holds every intersection and exactly those old vertices on the generator's side, and nothing else. None of its vertices is on the far side. |
| Voronoi.ClipInImage | lab4/voronoi.py:16-37 | Clipping keeps every vertex inside the image rectangle. |
| Voronoi.ClipKeepsSide | lab4/voronoi.py:16-37 | Clipping keeps a cell on whichever side of any line it was on. |
| Voronoi.TraceInImage | lab4/voronoi.py:4-37 | The successive cells of a generator start at the image rectangle, and each is the previous one clipped by the next other generator. Every cell along this trace lies within the image rectangle. |
| Voronoi.TraceStaysOnSide | lab4/voronoi.py:12-37 | Once a cell along the trace is on one side of a line, every later cell is too. |
| Voronoi.VoronoiSingle | lab4/voronoi.py:1-41 | A single generator gets the whole image rectangle. |
| Voronoi.VoronoiInImage | lab4/voronoi.py:1-41 | `voronoi` gives one cell per generator, in order, each the last cell of its clipping trace. Every vertex of every cell lies within [0, width] x [0, height]. |
| Voronoi.StepOnSide | lab4/voronoi.py:16-37 | A clip that takes effect leaves the cell on the generator's side of the bisector. |
| Voronoi.TraceSide | lab4/voronoi.py:12-37 | Once a generator's bisector has cut the cell, the final cell stays on the generator's side of it. |
| Voronoi.VoronoiSide | lab4/voronoi.py:1-41 | Every vertex of cell i lies on i's side of the bisector with every generator j whose bisector cut the cell when j's turn came. |
| Voronoi.VoronoiNearest | lab4/voronoi.py:1-41 | Every vertex of cell i is at least as close to generator i as to every such generator j. Such a j is never at the same position as i. |
| Regions.Mark | lab4/regions.py:26 | Setting a bitmap entry sets exactly that pixel and keeps the shape. |
| Regions.GetEmptyBitmap | lab4/regions.py:73-74 | `get_empty_bitmap` is width x height and all unset. |
| Regions.GetImageBitmap | lab4/regions.py:77-81 | `get_image_bitmap` is width x height, and a pixel is set exactly when it is one of the points. |
| Regions.Read | lab4/regions.py:66 | `visited[x][y]` raises exactly when a coordinate lies outside Python's index range for its list, from minus its length up to one less than its length. Otherwise it reads the entry at the pixel, where a negative coordinate is counted back from the end. |
| Regions.GetStartPointIndex | lab4/regions.py:62-70 | `get_start_point_i` returns the least position from `last` whose point is unvisited, or -1 exactly when all of them are visited. If a read raises first, the `IndexError` names the first position whose read raises, and every point before it is visited. |
| Regions.StartSearch | lab4/regions.py:1-16 | With every point inside the visited bitmap, the search in `find_regions` cannot raise. It stops only when every point is visited, and otherwise finds an unvisited point with all earlier points visited. |
| Regions.PendingStep | lab4/regions.py:23-26 | Visiting a set, unvisited pixel removes exactly that pixel from the pending ones. Visiting an already visited pixel changes nothing. |
| Regions.PushNeighbours | lab4/regions.py:32-43 | The pushes keep the old stack. They add only set, unvisited pixels of the 3 x 3 block, and they add all of them. |
| Regions.SeenPushesNothing | lab4/regions.py:21-43 | Popping an already visited pixel pushes nothing, which makes the stack loop terminate. |
| Regions.NeighboursAboveStep | lab4/regions.py:21-43 | Every visited pixel on the stack keeps its unvisited set neighbours above it on the stack. |
| Regions.ClosedUpToStep | lab4/regions.py:21-43 | Every set neighbour of a visited pixel is visited or still on the stack. |
| Regions.FloodInvStep | lab4/regions.py:21-43 | One pop, visit and push step keeps the flood invariant. It reduces the set of pending pixels, or keeps it and shortens the stack. |
| Regions.Flood | lab4/regions.py:18-43 | The region is non-empty and starts at the start point. It holds only set pixels that were unvisited when the flood began, and it marks exactly those as visited. It contains every set neighbour of its pixels. |
| Regions.FindRegions | lab4/regions.py:1-47 | Every region is non-empty and holds only input points. Every input point is in some region, and no point is in two regions. Every input point adjacent to a region's pixel is in that region. |
| Regions.AppendRegion | lab4/regions.py:9-45 | Appending a closed region of freshly visited set pixels keeps the regions disjoint, covering exactly the visited pixels, and closed under adjacency. |
| Regions.FindRegionCenters | lab4/regions.py:50-59 | It fails exactly when some region is empty, reporting the first one. Otherwise it gives one center per region, in order, each the mean of the region's coordinates. |
| Regions.SumBounds | lab4/regions.py:54-55 | A sum of n terms in [lo, hi] lies in [n lo, n hi]. |
| Regions.MeanInBox | lab4/regions.py:54-55 | A region's center lies in every box that holds all of its pixels. |

## Left out

- `main` in lab2, lab3 and lab4 is left out: it is all drawing, image output and Tk windows. `get_points_from_dataset_file`, `save_points_to_dataset_file`, `transform_coordinates_normal_to_canvas`, lab4/colors.py and the display-only sort in lab4/main.py are also left out, for the same reason.
- Floating point is left out: coordinates are exact reals. Float rounding can break slope ties, make nearly parallel lines meet, or move a hit just outside an edge's bounding box, and none of that is modelled.
- `Point.__hash__`, `Point.__repr__`, `Point.to_tuple` and `Line.__repr__` are left out: they are hashing and printing glue.
- Voronoi.Intersections: `get_intersections` returns a Python set, and `list(set)` has hash order. The model lists the points in order of first hit. Only points of equal slope from the reference point can end up in a different order after the stable sort.
- Voronoi.VoronoiSide: the half-plane property is stated only for generators whose bisector met the cell in two points or more. The code skips the other clips, so no half-plane is guaranteed for them.
- Voronoi.SortCounterclockwise: requires a non-empty cell. The code raises `IndexError` on an empty one, and `voronoi` never passes one.
- Ordering.CanonicalOrder: requires a non-empty list. `calculate_convex_hull` reports the empty case itself, as `Hull.ConvexHull` does.
- Regions.FindRegions: requires every point to be at least one pixel from the image border. The flood fill visits the neighbours of every pixel, and at the border it would wrap around at index -1 through Python's negative indexing or raise at index width. The flood's wrap-around is not modelled.
- Regions.FindRegions: does not state that each region is 8-connected. It states that regions are disjoint, cover the input, and are closed under adjacency.
- Regions.GetEmptyBitmap: sizes are natural numbers. A negative size would give an empty list in Python.
- Hull.ConvexHull: does not promise that every input point lies inside or on the returned hull. The code breaks this: when a farther point on the first ray from the start precedes a nearer one in the sorted order, the farther one is popped and left outside. `Hull.ScanMissesPoint` exhibits such an input. A corrected scan with a containment proof is not part of this model.
- Voronoi.VoronoiInImage: does not state that the cells partition the image. Because a clip is skipped when the bisector meets the cell in fewer than two points, only the per-generator half-planes of `Voronoi.VoronoiSide` are promised.
- Voronoi.Clip: does not state that a clipped cell stays convex. It states which vertices the new cell holds and that none is on the far side.
- Regions.GetImageBitmap: requires every point inside the image. Out-of-range points would raise or wrap in Python.
