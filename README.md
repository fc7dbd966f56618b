# A verified model of a point quadtree

This project models `quadtree.py`, a point quadtree. A `Node` covers a closed
axis-aligned rectangle. A node is either a LEAF or a BRANCH:

- A LEAF keeps every inserted point twice. `features` is the ordered list of
  insertions. `_points` is a frequency map keyed by the point value.
  `number_of_points` counts the insertions.
- A leaf whose map gains more distinct keys than `max_points` subdivides. It
  becomes a BRANCH over its four quadrants and re-inserts its list into them.
- A BRANCH hands each new point to the first child, in the fixed quadrant
  order, whose closed rectangle holds the point.
- `count_overlapping_points` and `get_overlapping_points` answer region
  queries. Each prunes three ways: the region contains the node, meets it, or
  misses it.
- `get_all_points` and `walk` traverse the whole tree.
- `QuadTree(points)` builds a tree over the bounding box of its input, with
  capacity 11, and inserts every point in order.

The project has two layers.

- **A value model.** Modules `Geometry`, `Regions`, `Frequencies` and
  `QuadTreeModel` describe a node as the datatype `Tree`. Every operation is a
  function on that value. `InsertProofs` and `QueryProofs` prove what those
  functions preserve and compute. `SplitProofs` proves that the recursion
  budget never changes a result it suffices for, and that splits succeed
  when the quadrants have room for the points re-inserted into them.
- **An imperative model.** Module `Nodes` holds a `class Node` whose fields the
  methods update in place, just as the Python methods do: the map increment,
  the list append, the count increment, the leaf-to-branch switch and the
  child list. Every method is proved to do to the node's ghost `model` what
  the matching function does. `Valid()` ties the object graph to that value.
  The value's own invariants (`QuadTreeModel.Valid` and `Bounded`) hold for
  the empty leaf a new node stands for, and every successful `AddPoint` and
  `Subdivide` keeps them. So every property proved about the functions holds
  for the objects.

Other choices:

- Coordinates are exact reals, so halving is exact and the four quadrants
  cover their parent.
- Python would recurse without bound on some inputs. The insertion therefore
  carries a recursion budget `fuel`. Each descent into a child costs one unit.
  Running out yields the error `TooDeep`, which stands for Python's
  `RecursionError`.

The model follows the code in three places where a reader might expect
otherwise:

- The frequency map `_points` is keyed by the whole point (coordinates and
  payload), as `point in self._points` does at quadtree.py:110-113. So two
  points at one spot with different payloads are two keys, and
  `InsertProofs.SameSpotNeverSettles` proves that two such points in a
  capacity-1 leaf never settle, whatever the budget.
- `Node.__init__` does not validate its rectangle, and neither does the
  constructor here.
- `walk` yields the stored point values, payloads included, not bare
  coordinates.

## Model

| member | source | states |
|---|---|---|
| Geometry.GetCoords | quadtree.py:33-37 | the coordinates of a point, its payload dropped |
| Geometry.InRect | quadtree.py:22-30 | `point_in_rectangle`: the closed test x0 ≤ x ≤ x1 and y0 ≤ y ≤ y1 |
| Geometry.Contains | quadtree.py:209-228 | `point_coords_in_bbox`: the closed test on the point's coordinates |
| Geometry.BBoxToCoords | quadtree.py:13-19 | four corners, counter-clockwise from (x0, y0); a rectangle holds all four of its corners exactly when it is well formed |
| Geometry.ClosedBounds | quadtree.py:209-228 | the containment test holds iff x0 ≤ x ≤ x1 and y0 ≤ y ≤ y1 (edges and corners are inside); it ignores the payload; a well-formed rectangle holds its own corners. It unfolds the definitions: the geometric content is in `QuadrantsCover` and `QueryProofs.AllPointsInRect` |
| Geometry.Quadrants | quadtree.py:192-200 | exactly four quadrants, each half the parent's width and height |
| Geometry.QuadrantsCover | quadtree.py:195-200 | with exact halving, every point of the parent lies in one of the four quadrants |
| Geometry.QuadrantsInside | quadtree.py:195-200 | every point of a quadrant lies in the parent |
| Frequencies.Tally | quadtree.py:109-114 | the frequency map that recording the listed points one by one produces |
| Frequencies.Dedup | quadtree.py:98-103 | the listed points in order of first occurrence: the iteration order of `_points` |
| Frequencies.Expand | quadtree.py:98-103 | each key repeated by its frequency, in key order: the body of the `points` property |
| Frequencies.Bump | quadtree.py:110-113 | the map gains key p; p's frequency goes up by one and every other key's frequency is unchanged |
| Frequencies.TallyIsMultiplicity | quadtree.py:109-114 | the map built by the insertions gives each point its number of occurrences in `features`, and its keys are exactly the listed points |
| Frequencies.TallySize | quadtree.py:116 | the number of distinct keys `len(self._points)` equals the length of the first-occurrence order of `features` |
| Frequencies.DedupElements | quadtree.py:98-103 | the map's key order lists every stored point exactly once |
| Frequencies.ExpandTally | quadtree.py:98-103 | the `points` property gives back every point of `features` with its multiplicity |
| QuadTreeModel.EmptyLeaf | quadtree.py:87-96 | the value of a fresh node: a leaf with an empty map, an empty list and count 0 |
| QuadTreeModel.Insert | quadtree.py:105-128 | `add_point`: out of bounds fails; a leaf records the point and subdivides past capacity; a branch routes to the first child that holds the point and counts it |
| QuadTreeModel.Route | quadtree.py:121-125 | the child-search loop with the call into the chosen child; no child holding the point leaves the children as they are |
| QuadTreeModel.FreshChildren | quadtree.py:195-202 | four empty leaves on the quadrants, in order, sharing the capacity |
| QuadTreeModel.Subdivide | quadtree.py:177-207 | a branch fails with `NotLeaf`; a leaf becomes a branch over fresh children into which its list is re-inserted, keeping its count |
| QuadTreeModel.Reinsert | quadtree.py:203-207 | the re-insertion loop: each listed point in order, routed to the first child that holds it |
| QuadTreeModel.InsertAll | quadtree.py:277-278 | `add_point` on every point in order, stopping at the first failure |
| QuadTreeModel.BoundingBox | quadtree.py:282-299 | the min/max loop of `find_bbox` on a non-empty list |
| QuadTreeModel.BBoxOf | quadtree.py:281-299 | `find_bbox`, failing with `EmptyInput` where `points[0]` raises |
| QuadTreeModel.Build | quadtree.py:269-278 | `QuadTree(points)`: a root leaf over the bounding box with capacity 11, then every point inserted |
| QuadTreeModel.AllPoints | quadtree.py:168-175 | `get_all_points`: a leaf's list, or the children's points concatenated in order |
| QuadTreeModel.LeafPoints | quadtree.py:98-103 | the `points` property of a leaf |
| QuadTreeModel.Walk | quadtree.py:230-238 | `walk`: a leaf's `points`, or the children's walks concatenated in order |
| QuadTreeModel.Inside | quadtree.py:156-159 | the listed points whose coordinates the region contains, in order |
| QuadTreeModel.LeafCount | quadtree.py:137-140 | the sum of the frequencies of the keys whose coordinates the region contains |
| QuadTreeModel.CountOverlapping | quadtree.py:130-147 | `count_overlapping_points`: the count if the region contains the rectangle, else the leaf's manual count or the children's sum if it meets it, else 0 |
| QuadTreeModel.GetOverlapping | quadtree.py:149-166 | `get_overlapping_points`: all points if the region contains the rectangle, else the leaf's filter or the children's lists concatenated if it meets it, else none |
| QuadTreeModel.FirstContaining | quadtree.py:121-125 | the index of the first child whose closed rectangle holds p, with no earlier child holding it, or the number of children when none does |
| InsertProofs.InsertCorrect | quadtree.py:105-128 | `add_point` on a valid node fails only out of bounds, or when the budget runs out; on success the node keeps its rectangle, capacity and invariants, its count grows by exactly one, it holds exactly one more copy of p, and no leaf exceeds its capacity |
| InsertProofs.LeafSplitsOnlyOnNewKeyAtCapacity | quadtree.py:109-118 | a repeated key, or a new key below capacity, is recorded in the leaf in place and never fails; a new key at capacity turns the leaf into a branch |
| InsertProofs.BranchRoutes | quadtree.py:119-125 | a point inside a valid branch always finds a child, so the routing loop never drops it |
| InsertProofs.FreshChildrenFacts | quadtree.py:195-202 | the four fresh children are valid empty leaves within capacity |
| InsertProofs.FreshChildrenCover | quadtree.py:203-207 | every point of the parent finds a fresh child |
| InsertProofs.SubdivideCorrect | quadtree.py:177-207 | `subdivide` on a branch raises; on a valid leaf it yields a valid branch on the same rectangle and capacity, within capacity, with the same count and the same multiset of points |
| InsertProofs.ReinsertCorrect | quadtree.py:203-207 | re-inserting a list into valid children keeps their cells, validity and capacity bound; their counts grow by the list's length and their points by its multiset |
| InsertProofs.RouteCorrect | quadtree.py:121-125 | routing p changes only the first child that holds it, which keeps its cell and invariants and gains exactly p; the other children are unchanged |
| InsertProofs.InsertPlaced | quadtree.py:105-128 | `add_point` keeps first-match placement: every point under a branch stays in the first child, in the fixed quadrant order, whose rectangle holds it |
| InsertProofs.RoutePlaced | quadtree.py:121-125 | one routing step keeps first-match placement among the children |
| InsertProofs.SubdividePlaced | quadtree.py:203-207 | after `subdivide` every re-inserted point sits in the first quadrant that holds it |
| InsertProofs.ReinsertPlaced | quadtree.py:203-207 | the re-insertion loop keeps first-match placement |
| InsertProofs.InsertAllPlaced | quadtree.py:277-278 | inserting a list keeps first-match placement |
| InsertProofs.BuildPlaced | quadtree.py:269-278 | every tree `QuadTree(points)` builds has first-match placement at every branch |
| InsertProofs.SameSpotNeverSettles | quadtree.py:105-128 | two distinct points with equal coordinates never settle in a capacity-1 leaf: the insertion runs out of budget for every budget |
| SplitProofs.InsertMono | quadtree.py:105-128 | an `add_point` that succeeds within a budget gives the same result with one more unit |
| SplitProofs.RouteMono | quadtree.py:121-125 | a routing step that succeeds within a budget gives the same result with one more unit |
| SplitProofs.SubdivideMono | quadtree.py:177-207 | a `subdivide` that succeeds within a budget gives the same result with one more unit |
| SplitProofs.ReinsertMono | quadtree.py:203-207 | a re-insertion loop that succeeds within a budget gives the same result with one more unit |
| SplitProofs.InsertFuelIrrelevant | quadtree.py:105-128 | an `add_point` that succeeds within a budget gives the same result with any larger budget |
| SplitProofs.ReinsertWithRoom | quadtree.py:203-207 | re-inserting points into leaves with room for every distinct key routed to them succeeds without further splits, leaving leaves within capacity on the same cells |
| SplitProofs.SubdivideWithRoom | quadtree.py:177-207 | `subdivide` of a leaf whose points all lie in its rectangle succeeds with any budget of at least one, and stops at one level, when no quadrant is routed more distinct keys than the capacity: a branch of four leaves within capacity |
| SplitProofs.InsertSplitsOnce | quadtree.py:109-118 | a new key at a full leaf splits it exactly once, with any budget of at least one, when no quadrant is routed more distinct keys than the capacity: a branch of four leaves within capacity |
| SplitProofs.SecondKeyOfOne | quadtree.py:105-128 | a capacity-1 leaf holding one key takes a second key that falls in another quadrant: a branch counting 2 whose two quadrants each hold one of the points and whose other quadrants stay empty |
| SplitProofs.TwoIntoEmpty | quadtree.py:203-207 | re-inserting two points that fall in different empty leaves puts each in its own leaf |
| SplitProofs.RouteIntoEmpty | quadtree.py:121-125 | routing a point to an empty leaf of positive capacity, the first child holding it, records it there without a split |
| SplitProofs.FirstInsert | quadtree.py:109-118 | the first point into an empty capacity-1 leaf is recorded without a split, whatever the budget |
| SplitProofs.AutoSplit | test.py:163-173 | a unit-square leaf of capacity one takes (0.25, 0.25) and then (0.75, 0.75); the result is a branch counting 2, with the first point in child 0, the second in child 2 and children 1 and 3 empty |
| InsertProofs.InsertAllCorrect | quadtree.py:277-278 | inserting a list of in-bounds points fails only on budget; otherwise the count grows by the list's length and the multiset of points by the list's, and validity and the capacity bound are kept |
| InsertProofs.BoundingBoxTight | quadtree.py:281-299 | the bounding box is well formed, holds every input point, and each of its four sides passes through an input point |
| InsertProofs.BuildCorrect | quadtree.py:269-278 | `QuadTree(points)` fails on no points, else only on budget; on success the root covers the tight bounding box, has capacity 11, count len(points), exactly the input points as a multiset, and every invariant |
| QueryProofs.AllPointsCount | quadtree.py:168-175 | `get_all_points` returns `number_of_points` points |
| QueryProofs.AllPointsInRect | quadtree.py:168-175 | every point stored under a node lies in the node's rectangle |
| QueryProofs.WalkMatchesAllPoints | quadtree.py:230-238 | `walk` yields the same multiset of points as `get_all_points`, `number_of_points` in all |
| QueryProofs.LeafCountMatchesInside | quadtree.py:137-140 | a leaf's sum of selected frequencies equals the number of its listed points the region selects |
| QueryProofs.CountMatchesGet | quadtree.py:130-166 | for any region, `count_overlapping_points` is the length of `get_overlapping_points` |
| QueryProofs.GetOverlappingIsFilter | quadtree.py:149-166 | for a region whose predicates agree with each other, the pruned query returns exactly the stored points the region contains, in traversal order |
| QueryProofs.CountIsFilterLength | quadtree.py:130-147 | for such a region, the pruned count is the number of stored points the region contains |
| QueryProofs.QueryShortcuts | quadtree.py:130-166 | a containing region gets `number_of_points` and every point; a disjoint region gets 0 and nothing; an empty geometry gets nothing. It unfolds the definitions: the query content is in `CountMatchesGet`, `GetOverlappingIsFilter` and `CountIsFilterLength` |
| Nodes.Node.constructor | quadtree.py:87-96 | a fresh valid empty leaf on the given rectangle, capacity 2 by default |
| Nodes.Node.AddPoint | quadtree.py:105-128 | the node's new value is `Insert` of its old value, and it keeps every invariant of the old value and the capacity bound; an out-of-bounds point raises `OutOfBounds` and leaves every object of the tree unchanged and the node valid, so it can take more points |
| Nodes.Node.AddToLeaf | quadtree.py:109-118 | bumps the map, appends to the list, counts the point, and subdivides past capacity, as `Insert` does on a leaf |
| Nodes.Node.AddToBranch | quadtree.py:119-125 | hands the point to the first child that holds it and then counts it, as `Insert` does on a branch |
| Nodes.Node.ChildFor | quadtree.py:121-122 | the child-search loop finds `FirstContaining` of the children |
| Nodes.Node.AddToChild | quadtree.py:123 | the chosen child's value becomes `Insert` of its old value, and the other children are untouched |
| Nodes.Node.CountOne | quadtree.py:124 | a branch's count goes up by one and its children are kept |
| Nodes.Node.Subdivide | quadtree.py:177-207 | on a non-leaf it raises `NotLeaf` and leaves every object of the tree unchanged and the node valid; on a leaf the new value is `Subdivide` of the old: a branch with an empty map and list, four children and the same count; when the old value kept every invariant, so does the new one, and it is within capacity |
| Nodes.Node.Split | quadtree.py:186-202 | the leaf empties its map and list, becomes a branch, and gets four newly allocated empty children on its quadrants, in order |
| Nodes.Node.Points | quadtree.py:98-103 | each key of the map, in first-insertion order, repeated by its frequency |
| Nodes.Node.GetAllPoints | quadtree.py:168-175 | the leaf's list, or the children's points concatenated in order |
| Nodes.Node.Walk | quadtree.py:230-238 | the leaf's `points`, or the children's walks concatenated in order |
| Nodes.Node.CountOverlappingPoints | quadtree.py:130-147 | the three-way pruned count `CountOverlapping` of the node's value |
| Nodes.Node.GetOverlappingPoints | quadtree.py:149-166 | the three-way pruned list `GetOverlapping` of the node's value |
| Nodes.NewQuadrants | quadtree.py:195-202 | four distinct fresh empty leaves on the quadrants, in the fixed order |
| Nodes.FindBBox | quadtree.py:281-299 | the min/max loop computes `BoundingBox` of the points, and fails with `EmptyInput` on none |
| Nodes.AddAll | quadtree.py:277-278 | the root's new value is `InsertAll` of its old value over the points, and a failure is the first `add_point` failure |
| Nodes.NewQuadTree | quadtree.py:269-278 | a fresh valid root whose value is `Build` of the points; on success the root covers their bounding box with capacity 11, its count is len(points), it holds exactly those points and every point sits in the first child that holds it; it fails with `EmptyInput` on no points and otherwise only on budget |

## Left out

- `Feature` (quadtree.py:40-76) wraps shapely, a foreign geometry library. A region is modelled as three arbitrary predicates: contains a rectangle, meets a rectangle, contains a coordinate. `Regions.Consistent` states the only geometric facts the filter lemmas assume.
- `Point.__hash__` and `__repr__` are left out. `Point` is a datatype with value equality on (x, y, payload), and the payload is a string or nothing.
- IEEE floating point is left out. This covers the `float(item)` conversion of the rectangle (line 95) and float halving. Coordinates are exact reals. With floats, the quadrants might not cover their parent.
- The `parent` back-reference and the `ROOT` tag (lines 83, 88) are left out, because no operation reads them. `get_bbox` just returns the rectangle.
- `get_coords` and `point_in_rectangle` accept either tuples or objects. That duck typing is collapsed to one `Point` type. A bare tuple is a point whose payload is `NoData`.
- `walk` is a lazy generator. Here it is the sequence it yields.
- `get_all_points` on a leaf returns the leaf's own list by reference. Here it returns the list's value, so aliasing is not captured.
- Nodes.Node.AddPoint: after a failure other than `OutOfBounds` or `NotLeaf`, the node's state is left unspecified. In Python such a failure is a `RecursionError` escaping midway through the updates.
- Insertion carries a recursion budget `fuel`. Python recurses until the interpreter's recursion limit. Insertion depths beyond the budget are therefore not modelled: they are reported as `TooDeep`.
- `bbox_to_coords` raises on a sequence whose length is not 4. Here the length check is enforced by the `Rect` type, so that error path cannot arise.
- The map's iteration order is modelled as the order in which keys first occur in `features`. This is the order a Python dict gives to keys inserted from that list.
- Capacity is a natural number. Python also accepts a negative `max_points`; every insertion into such a node then splits without end, as with capacity 0. The model has no negative capacity, so it does not describe that divergence.
