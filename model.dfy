/** The value-level quadtree: what a `Node` of quadtree.py holds, and what
    each of its operations computes, as functions of the node's value.
    The mutable `Node` class refines these functions. */
module QuadTreeModel {
  import opened Geometry
  import opened Regions
  import opened Frequencies

  /** The source's exceptions, told apart. */
  datatype Error =
    | OutOfBounds  // add_point on a point outside the rectangle (line 128)
    | NotLeaf      // subdivide on a branch (line 185)
    | EmptyInput   // find_bbox on no points (`points[0]`, line 282)
    | TooDeep      // the recursion budget ran out (see `fuel` below)

  datatype Result<T> = Ok(value: T) | Err(error: Error)

  /** `Node.max_points` default (line 87) and the QuadTree's choice (line 275). */
  const DefaultMaxPoints: nat := 2
  const QuadTreeMaxPoints: nat := 11

  /** A node: a leaf with its frequency map `counts` (`_points`), its ordered
      list `features` and its `number_of_points`, or a branch with its
      children and its `number_of_points`. */
  datatype Tree =
    | Leaf(rect: Rect, maxPoints: nat, counts: map<Point, nat>, features: seq<Point>, numberOfPoints: nat)
    | Branch(rect: Rect, maxPoints: nat, children: seq<Tree>, numberOfPoints: nat)

  /** `Node.__init__`: an empty leaf. */
  function EmptyLeaf(rect: Rect, maxPoints: nat): Tree
  {
    Leaf(rect, maxPoints, map[], [], 0)
  }

  /** The invariants every node keeps: a leaf's map tallies its list, whose
      length is its count, and every point lies in its rectangle; a branch has
      exactly four children on its quadrants, in order, sharing its capacity,
      and its count is the sum of theirs. */
  ghost predicate Valid(t: Tree)
    decreases t
  {
    match t
    case Leaf(rect, _, counts, features, num) =>
      counts == Tally(features) && num == |features| &&
      forall p | p in features :: Contains(rect, p)
    case Branch(rect, mp, cs, num) =>
      |cs| == 4 && num == SumCounts(cs) &&
      (forall i | 0 <= i < 4 :: cs[i].rect == Quadrants(rect)[i] && cs[i].maxPoints == mp) &&
      forall i {:trigger Valid(cs[i])} | 0 <= i < 4 :: Valid(cs[i])
  }

  /** No leaf holds more distinct keys than its capacity. */
  ghost predicate Bounded(t: Tree)
    decreases t
  {
    match t
    case Leaf(_, mp, counts, _, _) => |counts| <= mp
    case Branch(_, _, cs, _) => forall i {:trigger Bounded(cs[i])} | 0 <= i < |cs| :: Bounded(cs[i])
  }

  function SumCounts(cs: seq<Tree>): nat
  {
    if cs == [] then 0 else cs[0].numberOfPoints + SumCounts(cs[1..])
  }

  /** The index of the first child whose closed rectangle holds `p`, or
      `|cs|` when none does: the search loop at lines 121-125 and 204-207. */
  function FirstContaining(cs: seq<Tree>, p: Point): (i: nat)
    ensures i <= |cs|
    ensures i < |cs| ==> Contains(cs[i].rect, p)
    ensures forall j | 0 <= j < i :: !Contains(cs[j].rect, p)
  {
    if cs == [] then 0
    else if Contains(cs[0].rect, p) then 0
    else 1 + FirstContaining(cs[1..], p)
  }

  /*
   * Insertion. The source recurses add_point -> subdivide -> add_point without
   * a bound, and does not terminate once more than `max_points` distinct keys
   * share one spot (they keep landing in the same child). `fuel` is the recursion budget:
   * each descent into a child costs one unit, and running out is `TooDeep`,
   * standing for Python's RecursionError.
   */

  /** `add_point` (lines 105-128). */
  function Insert(t: Tree, p: Point, fuel: nat): Result<Tree>
    decreases fuel, 3, 0
  {
    if !Contains(t.rect, p) then Err(OutOfBounds)
    else match t
      case Leaf(rect, mp, counts, features, num) =>
        var grown := Leaf(rect, mp, Bump(counts, p), features + [p], num + 1);
        if |grown.counts| > mp then Subdivide(grown, fuel) else Ok(grown)
      case Branch(rect, mp, cs, num) =>
        if FirstContaining(cs, p) == |cs| then Ok(t)
        else match Route(cs, p, fuel)
          case Err(e) => Err(e)
          case Ok(cs') => Ok(Branch(rect, mp, cs', num + 1))
  }

  /** Hands `p` to the first child that holds it (lines 121-125, 204-207);
      the children are unchanged when none does. */
  function Route(cs: seq<Tree>, p: Point, fuel: nat): Result<seq<Tree>>
    decreases fuel, 0, 0
  {
    var i := FirstContaining(cs, p);
    if i == |cs| then Ok(cs)
    else if fuel == 0 then Err(TooDeep)
    else match Insert(cs[i], p, fuel - 1)
      case Err(e) => Err(e)
      case Ok(c) => Ok(cs[i := c])
  }

  /** The four fresh leaves `subdivide` creates (lines 195-202). */
  function FreshChildren(rect: Rect, mp: nat): seq<Tree>
  {
    var qs := Quadrants(rect);
    [EmptyLeaf(qs[0], mp), EmptyLeaf(qs[1], mp), EmptyLeaf(qs[2], mp), EmptyLeaf(qs[3], mp)]
  }

  /** `subdivide` (lines 177-207): a leaf becomes a branch and its list is
      re-inserted, in order, into the fresh children; the count is kept. */
  function Subdivide(t: Tree, fuel: nat): Result<Tree>
    decreases fuel, 2, 0
  {
    match t
    case Branch(_, _, _, _) => Err(NotLeaf)
    case Leaf(rect, mp, _, features, num) =>
      match Reinsert(FreshChildren(rect, mp), features, fuel)
      case Err(e) => Err(e)
      case Ok(cs) => Ok(Branch(rect, mp, cs, num))
  }

  /** The loop of lines 203-207 over the points still to re-insert. */
  function Reinsert(cs: seq<Tree>, pts: seq<Point>, fuel: nat): Result<seq<Tree>>
    decreases fuel, 1, |pts|
  {
    if pts == [] then Ok(cs)
    else match Route(cs, pts[0], fuel)
      case Err(e) => Err(e)
      case Ok(cs') => Reinsert(cs', pts[1..], fuel)
  }

  /** `add_point` for every point in turn (lines 277-278). */
  function InsertAll(t: Tree, pts: seq<Point>, fuel: nat): Result<Tree>
    decreases |pts|
  {
    if pts == [] then Ok(t)
    else match Insert(t, pts[0], fuel)
      case Err(e) => Err(e)
      case Ok(t') => InsertAll(t', pts[1..], fuel)
  }

  /** The smallest rectangle holding both `r` and `p`: one round of the loop
      of `find_bbox` (lines 288-297). */
  function Extend(r: Rect, p: Point): Rect
  {
    Rect(if p.x < r.x0 then p.x else r.x0,
         if p.y < r.y0 then p.y else r.y0,
         if p.x > r.x1 then p.x else r.x1,
         if p.y > r.y1 then p.y else r.y1)
  }

  /** The degenerate rectangle at one point (lines 282-286). */
  function PointBox(p: Point): Rect
  {
    Rect(p.x, p.y, p.x, p.y)
  }

  /** What `find_bbox` returns for a non-empty list. */
  function BoundingBox(pts: seq<Point>): Rect
    requires pts != []
    decreases |pts|
  {
    if |pts| == 1 then PointBox(pts[0])
    else Extend(BoundingBox(pts[..|pts| - 1]), pts[|pts| - 1])
  }

  /** `find_bbox` with its failure on an empty list. */
  function BBoxOf(pts: seq<Point>): Result<Rect>
  {
    if pts == [] then Err(EmptyInput) else Ok(BoundingBox(pts))
  }

  /** `QuadTree(points)` (lines 269-278): a root over the bounding box with
      capacity 11, then every point inserted in order. */
  function Build(pts: seq<Point>, fuel: nat): Result<Tree>
  {
    match BBoxOf(pts)
    case Err(e) => Err(e)
    case Ok(box) => InsertAll(EmptyLeaf(box, QuadTreeMaxPoints), pts, fuel)
  }

  /*
   * Traversals and queries.
   */

  /** `get_all_points` (lines 168-175). */
  function AllPoints(t: Tree): seq<Point>
    decreases t
  {
    match t
    case Leaf(_, _, _, features, _) => features
    case Branch(_, _, cs, _) => AllPointsOf(cs)
  }

  function AllPointsOf(cs: seq<Tree>): seq<Point>
    decreases cs
  {
    if cs == [] then [] else AllPoints(cs[0]) + AllPointsOf(cs[1..])
  }

  /** The `points` property of a leaf (lines 98-103). */
  function LeafPoints(t: Tree): seq<Point>
    requires t.Leaf?
  {
    Expand(Dedup(t.features), t.counts)
  }

  /** `walk` (lines 230-238), as the sequence it yields. */
  function Walk(t: Tree): seq<Point>
    decreases t
  {
    match t
    case Leaf(_, _, _, _, _) => LeafPoints(t)
    case Branch(_, _, cs, _) => WalkOf(cs)
  }

  function WalkOf(cs: seq<Tree>): seq<Point>
    decreases cs
  {
    if cs == [] then [] else Walk(cs[0]) + WalkOf(cs[1..])
  }

  /** Does the region contain the point's coordinates? */
  predicate Selected(g: Region, p: Point)
  {
    g.containsPoint(GetCoords(p))
  }

  /** The points of `s` the region contains, in order. */
  function Inside(s: seq<Point>, g: Region): seq<Point>
  {
    if s == [] then []
    else (if Selected(g, s[0]) then [s[0]] else []) + Inside(s[1..], g)
  }

  /** The sum of the frequencies of the selected keys (lines 137-140). */
  function LeafCount(ks: seq<Point>, m: map<Point, nat>, g: Region): nat
    decreases |ks|
  {
    if ks == [] then 0
    else
      var k := ks[|ks| - 1];
      LeafCount(ks[..|ks| - 1], m, g) + (if Selected(g, k) then Freq(m, k) else 0)
  }

  /** `count_overlapping_points` (lines 130-147). */
  function CountOverlapping(t: Tree, g: Region): nat
    decreases t
  {
    if g.containsRect(t.rect) then t.numberOfPoints
    else if g.intersectsRect(t.rect) then
      match t
      case Leaf(_, _, counts, features, _) => LeafCount(Dedup(features), counts, g)
      case Branch(_, _, cs, _) => CountOverlappingOf(cs, g)
    else 0
  }

  function CountOverlappingOf(cs: seq<Tree>, g: Region): nat
    decreases cs
  {
    if cs == [] then 0 else CountOverlapping(cs[0], g) + CountOverlappingOf(cs[1..], g)
  }

  /** `get_overlapping_points` (lines 149-166). */
  function GetOverlapping(t: Tree, g: Region): seq<Point>
    decreases t
  {
    if g.containsRect(t.rect) then AllPoints(t)
    else if g.intersectsRect(t.rect) then
      match t
      case Leaf(_, _, _, features, _) => Inside(features, g)
      case Branch(_, _, cs, _) => GetOverlappingOf(cs, g)
    else []
  }

  function GetOverlappingOf(cs: seq<Tree>, g: Region): seq<Point>
    decreases cs
  {
    if cs == [] then [] else GetOverlapping(cs[0], g) + GetOverlappingOf(cs[1..], g)
  }
}
