/** What `add_point`, `subdivide` and the QuadTree bootstrap preserve and
    guarantee (quadtree.py lines 105-128, 177-207, 269-299). */
module InsertProofs {
  import opened Geometry
  import opened Frequencies
  import opened QuadTreeModel

  /** Every child is valid. */
  ghost predicate AllValid(cs: seq<Tree>)
  {
    forall i {:trigger Valid(cs[i])} | 0 <= i < |cs| :: Valid(cs[i])
  }

  /** Every child is valid and within capacity. */
  ghost predicate AllValidBounded(cs: seq<Tree>)
  {
    (forall i {:trigger Valid(cs[i])} | 0 <= i < |cs| :: Valid(cs[i])) &&
    (forall i {:trigger Bounded(cs[i])} | 0 <= i < |cs| :: Bounded(cs[i]))
  }

  /** `cs'` has the children of `cs` in place: same rectangles and capacities. */
  ghost predicate SameCells(cs: seq<Tree>, cs': seq<Tree>)
  {
    |cs'| == |cs| &&
    forall i | 0 <= i < |cs| :: cs'[i].rect == cs[i].rect && cs'[i].maxPoints == cs[i].maxPoints
  }

  /** `t'` is `t` with `p` added: one more point, same cell, still valid. */
  ghost predicate Grown(t: Tree, p: Point, t': Tree)
  {
    Valid(t') && t'.rect == t.rect && t'.maxPoints == t.maxPoints &&
    t'.numberOfPoints == t.numberOfPoints + 1 &&
    multiset(AllPoints(t')) == multiset(AllPoints(t)) + multiset{p}
  }

  lemma {:induction false} SumCountsUpdate(cs: seq<Tree>, i: int, c: Tree)
    requires 0 <= i < |cs|
    ensures SumCounts(cs[i := c]) + cs[i].numberOfPoints == SumCounts(cs) + c.numberOfPoints
  {
    if i > 0 {
      assert cs[i := c][1..] == cs[1..][i - 1 := c];
      SumCountsUpdate(cs[1..], i - 1, c);
    }
  }

  lemma {:induction false} AllPointsOfUpdate(cs: seq<Tree>, i: int, c: Tree)
    requires 0 <= i < |cs|
    ensures multiset(AllPointsOf(cs[i := c])) + multiset(AllPoints(cs[i]))
         == multiset(AllPointsOf(cs)) + multiset(AllPoints(c))
  {
    if i > 0 {
      assert cs[i := c][1..] == cs[1..][i - 1 := c];
      AllPointsOfUpdate(cs[1..], i - 1, c);
      assert AllPointsOf(cs[i := c]) == AllPoints(cs[0]) + AllPointsOf(cs[1..][i - 1 := c]);
      assert AllPointsOf(cs) == AllPoints(cs[0]) + AllPointsOf(cs[1..]);
      assert cs[1..][i - 1] == cs[i];
      var head := multiset(AllPoints(cs[0]));
      calc {
        multiset(AllPointsOf(cs[i := c])) + multiset(AllPoints(cs[i]));
        head + (multiset(AllPointsOf(cs[1..][i - 1 := c])) + multiset(AllPoints(cs[i])));
        head + (multiset(AllPointsOf(cs[1..])) + multiset(AllPoints(c)));
        multiset(AllPointsOf(cs)) + multiset(AllPoints(c));
      }
    }
  }

  /** The search looks only at the children's rectangles. */
  lemma {:induction false} FirstContainingSameCells(cs: seq<Tree>, cs': seq<Tree>, p: Point)
    requires SameCells(cs, cs')
    ensures FirstContaining(cs', p) == FirstContaining(cs, p)
  {
    if cs != [] {
      FirstContainingSameCells(cs[1..], cs'[1..], p);
    }
  }

  /** Coverage: a point inside a valid branch's rectangle always finds a
      child, so the routing loop never drops it. */
  lemma BranchRoutes(t: Tree, p: Point)
    requires Valid(t) && t.Branch? && Contains(t.rect, p)
    ensures FirstContaining(t.children, p) < 4
  {
    QuadrantsCover(t.rect, GetCoords(p));
    var i :| 0 <= i < 4 && InRect(GetCoords(p), Quadrants(t.rect)[i]);
    assert Contains(t.children[i].rect, p);
  }

  /** Empty leaves hold no points. */
  lemma {:induction false} EmptyLeaves(cs: seq<Tree>)
    requires forall i | 0 <= i < |cs| :: cs[i].Leaf? && cs[i].features == [] && cs[i].numberOfPoints == 0
    ensures SumCounts(cs) == 0 && AllPointsOf(cs) == []
  {
    if cs != [] {
      EmptyLeaves(cs[1..]);
    }
  }

  /** The fresh children `subdivide` makes are valid, within capacity and
      empty. */
  lemma FreshChildrenFacts(rect: Rect, mp: nat)
    ensures AllValidBounded(FreshChildren(rect, mp))
    ensures SumCounts(FreshChildren(rect, mp)) == 0
    ensures AllPointsOf(FreshChildren(rect, mp)) == []
  {
    var cs := FreshChildren(rect, mp);
    forall i | 0 <= i < 4
      ensures Valid(cs[i]) && Bounded(cs[i])
    {
      assert cs[i] == EmptyLeaf(Quadrants(rect)[i], mp);
    }
    EmptyLeaves(cs);
  }

  /** ... and cover the parent: every point of it finds a child. */
  lemma FreshChildrenCover(rect: Rect, mp: nat, p: Point)
    requires Contains(rect, p)
    ensures FirstContaining(FreshChildren(rect, mp), p) < 4
  {
    var cs := FreshChildren(rect, mp);
    QuadrantsCover(rect, GetCoords(p));
    var i :| 0 <= i < 4 && InRect(GetCoords(p), Quadrants(rect)[i]);
    assert Contains(cs[i].rect, p);
  }

  /** `add_point` on a valid node: it fails only out of bounds or when the
      budget runs out; otherwise the node keeps its cell and invariants and
      holds exactly one more point, and no leaf exceeds its capacity if none
      did before (a leaf's result never does). */
  lemma {:induction false} InsertCorrect(t: Tree, p: Point, fuel: nat)
    requires Valid(t)
    decreases fuel, 3, 1
    ensures var r := Insert(t, p, fuel);
      (r.Err? ==> r.error == if Contains(t.rect, p) then TooDeep else OutOfBounds) &&
      (r.Ok? ==> Contains(t.rect, p) && Grown(t, p, r.value) &&
                 (Bounded(t) || t.Leaf? ==> Bounded(r.value)))
  {
    if Contains(t.rect, p) {
      if t.Leaf? {
        InsertLeafCorrect(t, p, fuel);
      } else {
        InsertBranchCorrect(t, p, fuel);
      }
    }
  }

  /** A leaf records the point, and subdivides when it has one key too many. */
  lemma InsertLeafCorrect(t: Tree, p: Point, fuel: nat)
    requires Valid(t) && t.Leaf? && Contains(t.rect, p)
    decreases fuel, 3, 0
    ensures var r := Insert(t, p, fuel);
      (r.Err? ==> r.error == TooDeep) && (r.Ok? ==> Grown(t, p, r.value) && Bounded(r.value))
  {
    var grown := Leaf(t.rect, t.maxPoints, Bump(t.counts, p), t.features + [p], t.numberOfPoints + 1);
    TallyAppend(t.features, p);
    assert Valid(grown);
    if |grown.counts| > t.maxPoints {
      SubdivideCorrect(grown, fuel);
    }
  }

  /** A branch hands the point to the child that holds it. */
  lemma InsertBranchCorrect(t: Tree, p: Point, fuel: nat)
    requires Valid(t) && t.Branch? && Contains(t.rect, p)
    decreases fuel, 3, 0
    ensures var r := Insert(t, p, fuel);
      (r.Err? ==> r.error == TooDeep) &&
      (r.Ok? ==> Grown(t, p, r.value) && (Bounded(t) ==> Bounded(r.value)))
  {
    BranchRoutes(t, p);
    RouteCorrect(t.children, p, fuel);
  }

  /** Routing into the first containing child: that child alone changes,
      and it gains `p`. */
  lemma {:induction false} RouteCorrect(cs: seq<Tree>, p: Point, fuel: nat)
    requires AllValid(cs) && FirstContaining(cs, p) < |cs|
    decreases fuel, 0, 0
    ensures var r := Route(cs, p, fuel);
      (r.Err? ==> r.error == TooDeep) &&
      (r.Ok? ==> SameCells(cs, r.value) && AllValid(r.value) &&
                 (forall i {:trigger Bounded(r.value[i])} | 0 <= i < |cs| :: Bounded(cs[i]) ==> Bounded(r.value[i])) &&
                 SumCounts(r.value) == SumCounts(cs) + 1 &&
                 multiset(AllPointsOf(r.value)) == multiset(AllPointsOf(cs)) + multiset{p})
    ensures var r := Route(cs, p, fuel); var i := FirstContaining(cs, p);
      r.Ok? ==> |r.value| == |cs| && r.value == cs[i := r.value[i]] && Grown(cs[i], p, r.value[i])
  {
    var i := FirstContaining(cs, p);
    if fuel > 0 {
      InsertCorrect(cs[i], p, fuel - 1);
      var r := Insert(cs[i], p, fuel - 1);
      if r.Ok? {
        ReplaceGrown(cs, i, p, r.value);
      }
    }
  }

  /** Replacing one child by a grown copy of it. */
  lemma ReplaceGrown(cs: seq<Tree>, i: nat, p: Point, c: Tree)
    requires AllValid(cs) && i < |cs| && Grown(cs[i], p, c)
    ensures SameCells(cs, cs[i := c]) && AllValid(cs[i := c])
    ensures SumCounts(cs[i := c]) == SumCounts(cs) + 1
    ensures multiset(AllPointsOf(cs[i := c])) == multiset(AllPointsOf(cs)) + multiset{p}
  {
    var cs' := cs[i := c];
    forall k | 0 <= k < |cs'|
      ensures Valid(cs'[k]) && cs'[k].rect == cs[k].rect && cs'[k].maxPoints == cs[k].maxPoints
    {
      if k != i {
        assert cs'[k] == cs[k];
      }
    }
    SumCountsUpdate(cs, i, c);
    ReplacePoints(cs, i, p, c);
  }

  lemma ReplacePoints(cs: seq<Tree>, i: nat, p: Point, c: Tree)
    requires i < |cs| && multiset(AllPoints(c)) == multiset(AllPoints(cs[i])) + multiset{p}
    ensures multiset(AllPointsOf(cs[i := c])) == multiset(AllPointsOf(cs)) + multiset{p}
  {
    AllPointsOfUpdate(cs, i, c);
    Cancel(multiset(AllPointsOf(cs[i := c])), multiset(AllPointsOf(cs)), multiset(AllPoints(cs[i])), p);
  }

  lemma Cancel(after: multiset<Point>, before: multiset<Point>, old_: multiset<Point>, p: Point)
    requires after + old_ == before + (old_ + multiset{p})
    ensures after == before + multiset{p}
  {
    forall x
      ensures after[x] == (before + multiset{p})[x]
    {
      assert (after + old_)[x] == (before + (old_ + multiset{p}))[x];
    }
  }

  /** `subdivide`: a branch refuses; a valid leaf becomes a valid branch over
      its four quadrants, within capacity, with the same count and the same
      points. */
  lemma {:induction false} SubdivideCorrect(t: Tree, fuel: nat)
    requires Valid(t)
    decreases fuel, 2, 0
    ensures t.Branch? ==> Subdivide(t, fuel) == Err(NotLeaf)
    ensures var r := Subdivide(t, fuel);
      t.Leaf? ==>
        (r.Err? ==> r.error == TooDeep) &&
        (r.Ok? ==> r.value.Branch? && Valid(r.value) && Bounded(r.value) &&
                   r.value.rect == t.rect && r.value.maxPoints == t.maxPoints &&
                   r.value.numberOfPoints == t.numberOfPoints &&
                   multiset(AllPoints(r.value)) == multiset(t.features))
  {
    if t.Leaf? {
      var quads := FreshChildren(t.rect, t.maxPoints);
      forall p | p in t.features
        ensures FirstContaining(quads, p) < |quads|
      {
        FreshChildrenCover(t.rect, t.maxPoints, p);
      }
      FreshChildrenFacts(t.rect, t.maxPoints);
      ReinsertCorrect(quads, t.features, fuel);
      var r := Reinsert(quads, t.features, fuel);
      if r.Ok? {
        assert Subdivide(t, fuel) == Ok(Branch(t.rect, t.maxPoints, r.value, t.numberOfPoints));
        assert multiset(AllPointsOf(quads)) == multiset{};
        assert multiset(AllPointsOf(r.value)) == multiset(t.features);
        assert AllPoints(Branch(t.rect, t.maxPoints, r.value, t.numberOfPoints)) == AllPointsOf(r.value);
      }
    }
  }

  /** `cs'` is `cs` with the points `pts` added: the same cells, still valid
      and within capacity, holding exactly those points more. */
  ghost predicate Refilled(cs: seq<Tree>, pts: seq<Point>, cs': seq<Tree>)
  {
    SameCells(cs, cs') && AllValidBounded(cs') &&
    SumCounts(cs') == SumCounts(cs) + |pts| &&
    multiset(AllPointsOf(cs')) == multiset(AllPointsOf(cs)) + multiset(pts)
  }

  /** The re-insertion loop of `subdivide`. */
  lemma {:induction false} ReinsertCorrect(cs: seq<Tree>, pts: seq<Point>, fuel: nat)
    requires AllValidBounded(cs)
    requires forall p | p in pts :: FirstContaining(cs, p) < |cs|
    decreases fuel, 1, |pts|
    ensures var r := Reinsert(cs, pts, fuel);
      (r.Err? ==> r.error == TooDeep) && (r.Ok? ==> Refilled(cs, pts, r.value))
  {
    if pts != [] {
      RouteRefills(cs, pts[0], fuel);
      var r := Route(cs, pts[0], fuel);
      if r.Ok? {
        var cs1 := r.value;
        assert Reinsert(cs, pts, fuel) == Reinsert(cs1, pts[1..], fuel);
        StillRoutes(cs, cs1, pts[1..]);
        ReinsertCorrect(cs1, pts[1..], fuel);
        var r2 := Reinsert(cs1, pts[1..], fuel);
        if r2.Ok? {
          RefilledTrans(cs, cs1, pts, r2.value);
        }
      } else {
        assert Reinsert(cs, pts, fuel) == Err(r.error);
      }
    }
  }

  lemma StillRoutes(cs: seq<Tree>, cs': seq<Tree>, pts: seq<Point>)
    requires SameCells(cs, cs') && forall p | p in pts :: FirstContaining(cs, p) < |cs|
    ensures forall p | p in pts :: FirstContaining(cs', p) < |cs'|
  {
    forall p | p in pts
      ensures FirstContaining(cs', p) < |cs'|
    {
      FirstContainingSameCells(cs, cs', p);
    }
  }

  /** One round of the loop. */
  lemma RouteRefills(cs: seq<Tree>, p: Point, fuel: nat)
    requires AllValidBounded(cs) && FirstContaining(cs, p) < |cs|
    decreases fuel, 0, 1
    ensures var r := Route(cs, p, fuel);
      (r.Err? ==> r.error == TooDeep) && (r.Ok? ==> Refilled(cs, [p], r.value))
  {
    RouteCorrect(cs, p, fuel);
  }

  lemma RefilledTrans(cs: seq<Tree>, cs1: seq<Tree>, pts: seq<Point>, cs2: seq<Tree>)
    requires pts != [] && Refilled(cs, [pts[0]], cs1) && Refilled(cs1, pts[1..], cs2)
    ensures Refilled(cs, pts, cs2)
  {
    assert pts == [pts[0]] + pts[1..];
  }

  /*
   * Placement. Boundary points satisfy the closed test of several siblings;
   * the routing loops (lines 121-125, 204-207) give each to the first of them
   * in the fixed quadrant order, and insertion keeps it so.
   */

  /** Every point stored under child `j` belongs to child `j`: no earlier
      sibling's rectangle holds it, and `j`'s does. */
  ghost predicate FirstMatch(cs: seq<Tree>)
  {
    forall j, q | 0 <= j < |cs| && q in AllPoints(cs[j]) :: FirstContaining(cs, q) == j
  }

  /** First-match placement at every branch of the tree. */
  ghost predicate Placed(t: Tree)
    decreases t
  {
    match t
    case Leaf(_, _, _, _, _) => true
    case Branch(_, _, cs, _) =>
      FirstMatch(cs) && forall i {:trigger Placed(cs[i])} | 0 <= i < |cs| :: Placed(cs[i])
  }

  ghost predicate AllPlaced(cs: seq<Tree>)
  {
    FirstMatch(cs) && forall i {:trigger Placed(cs[i])} | 0 <= i < |cs| :: Placed(cs[i])
  }

  /** `add_point` keeps every point with the first sibling that holds it. */
  lemma {:induction false} InsertPlaced(t: Tree, p: Point, fuel: nat)
    requires Valid(t) && Placed(t)
    decreases fuel, 3, 0
    ensures Insert(t, p, fuel).Ok? ==> Placed(Insert(t, p, fuel).value)
  {
    if Contains(t.rect, p) {
      match t
      case Leaf(rect, mp, counts, features, num) =>
        var grown := Leaf(rect, mp, Bump(counts, p), features + [p], num + 1);
        if |grown.counts| > mp {
          TallyAppend(features, p);
          SubdividePlaced(grown, fuel);
        }
      case Branch(rect, mp, cs, num) =>
        if FirstContaining(cs, p) < |cs| {
          RoutePlaced(cs, p, fuel);
        }
    }
  }

  /** One routing step keeps the placement. */
  lemma {:induction false} RoutePlaced(cs: seq<Tree>, p: Point, fuel: nat)
    requires AllValid(cs) && AllPlaced(cs) && FirstContaining(cs, p) < |cs|
    decreases fuel, 0, 0
    ensures Route(cs, p, fuel).Ok? ==> AllPlaced(Route(cs, p, fuel).value)
  {
    var i := FirstContaining(cs, p);
    if fuel > 0 && Insert(cs[i], p, fuel - 1).Ok? {
      InsertPlaced(cs[i], p, fuel - 1);
      RouteStepPlaced(cs, i, p, fuel);
    }
  }

  /** The routing step once the chosen child has taken `p`. */
  lemma RouteStepPlaced(cs: seq<Tree>, i: nat, p: Point, fuel: nat)
    requires AllPlaced(cs) && i == FirstContaining(cs, p) < |cs| && fuel > 0 && Valid(cs[i])
    requires Insert(cs[i], p, fuel - 1).Ok? && Placed(Insert(cs[i], p, fuel - 1).value)
    ensures Route(cs, p, fuel).Ok? && AllPlaced(Route(cs, p, fuel).value)
  {
    InsertKeepsCell(cs[i], p, fuel - 1);
    PlacedAfterRoute(cs, i, p, Insert(cs[i], p, fuel - 1).value);
    RouteStep(cs, i, p, fuel);
  }

  /** A routing step that finds child `i` replaces it by its insertion. */
  lemma RouteStep(cs: seq<Tree>, i: nat, p: Point, fuel: nat)
    requires i == FirstContaining(cs, p) < |cs| && fuel > 0 && Insert(cs[i], p, fuel - 1).Ok?
    ensures Route(cs, p, fuel) == Ok(cs[i := Insert(cs[i], p, fuel - 1).value])
  {
  }

  /** What placement needs of `InsertCorrect`: the cell is kept and `p` added. */
  lemma InsertKeepsCell(t: Tree, p: Point, fuel: nat)
    requires Valid(t)
    ensures var r := Insert(t, p, fuel);
      r.Ok? ==> r.value.rect == t.rect && r.value.maxPoints == t.maxPoints &&
                multiset(AllPoints(r.value)) == multiset(AllPoints(t)) + multiset{p}
  {
    InsertCorrect(t, p, fuel);
  }

  lemma SameCellsUpdate(cs: seq<Tree>, i: nat, c: Tree)
    requires i < |cs| && c.rect == cs[i].rect && c.maxPoints == cs[i].maxPoints
    ensures SameCells(cs, cs[i := c])
  {
  }

  /** Replacing the first child holding `p` by a placed copy of it on the
      same cell with `p` added keeps the placement. */
  lemma PlacedAfterRoute(cs: seq<Tree>, i: nat, p: Point, c: Tree)
    requires AllPlaced(cs) && i == FirstContaining(cs, p) < |cs|
    requires c.rect == cs[i].rect && c.maxPoints == cs[i].maxPoints && Placed(c)
    requires multiset(AllPoints(c)) == multiset(AllPoints(cs[i])) + multiset{p}
    ensures AllPlaced(cs[i := c])
  {
    var cs' := cs[i := c];
    SameCellsUpdate(cs, i, c);
    forall j, q | 0 <= j < |cs'| && q in AllPoints(cs'[j])
      ensures FirstContaining(cs', q) == j
    {
      FirstContainingSameCells(cs, cs', q);
      if j == i {
        assert q in multiset(AllPoints(c));
        assert q == p || q in multiset(AllPoints(cs[i]));
      } else {
        assert cs'[j] == cs[j];
      }
    }
    forall k | 0 <= k < |cs'|
      ensures Placed(cs'[k])
    {
      if k != i {
        assert cs'[k] == cs[k];
      }
    }
  }

  /** `subdivide` places every re-inserted point with its first quadrant. */
  lemma {:induction false} SubdividePlaced(t: Tree, fuel: nat)
    requires Valid(t) && t.Leaf?
    decreases fuel, 2, 0
    ensures Subdivide(t, fuel).Ok? ==> Placed(Subdivide(t, fuel).value)
  {
    var quads := FreshChildren(t.rect, t.maxPoints);
    FreshChildrenFacts(t.rect, t.maxPoints);
    FreshPlaced(t.rect, t.maxPoints);
    forall q | q in t.features
      ensures FirstContaining(quads, q) < |quads|
    {
      FreshChildrenCover(t.rect, t.maxPoints, q);
    }
    ReinsertPlaced(quads, t.features, fuel);
  }

  /** Fresh empty leaves are trivially placed. */
  lemma FreshPlaced(rect: Rect, mp: nat)
    ensures AllPlaced(FreshChildren(rect, mp))
  {
    var cs := FreshChildren(rect, mp);
    forall j | 0 <= j < 4
      ensures AllPoints(cs[j]) == [] && Placed(cs[j])
    {
      assert cs[j] == EmptyLeaf(Quadrants(rect)[j], mp);
    }
  }

  /** The re-insertion loop keeps the placement. */
  lemma {:induction false} ReinsertPlaced(cs: seq<Tree>, pts: seq<Point>, fuel: nat)
    requires AllValid(cs) && AllPlaced(cs)
    requires forall p | p in pts :: FirstContaining(cs, p) < |cs|
    decreases fuel, 1, |pts|
    ensures Reinsert(cs, pts, fuel).Ok? ==> AllPlaced(Reinsert(cs, pts, fuel).value)
  {
    if pts != [] {
      var r := Route(cs, pts[0], fuel);
      if r.Ok? {
        RoutePlaced(cs, pts[0], fuel);
        RouteCorrect(cs, pts[0], fuel);
        assert Reinsert(cs, pts, fuel) == Reinsert(r.value, pts[1..], fuel);
        StillRoutes(cs, r.value, pts[1..]);
        ReinsertPlaced(r.value, pts[1..], fuel);
      }
    }
  }

  /** The bootstrap's insertion loop keeps the placement. */
  lemma {:induction false} InsertAllPlaced(t: Tree, pts: seq<Point>, fuel: nat)
    requires Valid(t) && Placed(t)
    decreases |pts|
    ensures InsertAll(t, pts, fuel).Ok? ==> Placed(InsertAll(t, pts, fuel).value)
  {
    if pts != [] {
      var r := Insert(t, pts[0], fuel);
      if r.Ok? {
        InsertCorrect(t, pts[0], fuel);
        InsertPlaced(t, pts[0], fuel);
        InsertAllPlaced(r.value, pts[1..], fuel);
      }
    }
  }

  /** Every tree `QuadTree(points)` builds keeps each point with the first
      sibling, in the fixed quadrant order, whose rectangle holds it. */
  lemma BuildPlaced(pts: seq<Point>, fuel: nat)
    ensures Build(pts, fuel).Ok? ==> Placed(Build(pts, fuel).value)
  {
    if pts != [] {
      InsertAllPlaced(EmptyLeaf(BoundingBox(pts), QuadTreeMaxPoints), pts, fuel);
    }
  }

  /** When a leaf splits: a key already present, or a new key while below
      capacity, is recorded in place and never fails; a new key at capacity
      causes exactly one subdivision of this node, leaving a branch. */
  lemma LeafSplitsOnlyOnNewKeyAtCapacity(t: Tree, p: Point, fuel: nat)
    requires Valid(t) && Bounded(t) && t.Leaf? && Contains(t.rect, p)
    ensures p in t.counts || |t.counts| < t.maxPoints ==>
      Insert(t, p, fuel) == Ok(Leaf(t.rect, t.maxPoints, Bump(t.counts, p), t.features + [p], t.numberOfPoints + 1))
    ensures var r := Insert(t, p, fuel);
      p !in t.counts && |t.counts| >= t.maxPoints ==>
        (r.Ok? ==> r.value.Branch?) && (r.Err? ==> r.error == TooDeep)
  {
    var grown := Leaf(t.rect, t.maxPoints, Bump(t.counts, p), t.features + [p], t.numberOfPoints + 1);
    if p in t.counts {
      assert grown.counts.Keys == t.counts.Keys;
    } else {
      assert grown.counts.Keys == t.counts.Keys + {p};
      TallyAppend(t.features, p);
      SubdivideCorrect(grown, fuel);
    }
  }

  /** Why the recursion budget is needed: two distinct points at the same
      coordinates (they differ in payload) never fit in a leaf of capacity 1.
      Each split sends both to the same quadrant, which splits again, so the
      insertion fails for every budget, where the source recurses forever. */
  lemma {:induction false} SameSpotNeverSettles(r: Rect, p: Point, q: Point, fuel: nat)
    requires p != q && GetCoords(p) == GetCoords(q) && Contains(r, p)
    decreases fuel
    ensures Insert(Leaf(r, 1, map[p := 1], [p], 1), q, fuel) == Err(TooDeep)
  {
    var quads := FreshChildren(r, 1);
    FreshChildrenCover(r, 1, p);
    var i := FirstContaining(quads, p);
    if fuel > 0 {
      SameSpotNeverSettles(quads[i].rect, p, q, fuel - 1);
      DescendFails(r, p, q, fuel);
    } else {
      ReinsertPairFails(quads, p, q, fuel);
    }
    SecondKeySplits(r, p, q, fuel);
  }

  /** After the split, `p` settles in its quadrant and `q` follows it there;
      if `q` cannot settle in that quadrant, the re-insertion fails. */
  lemma DescendFails(r: Rect, p: Point, q: Point, fuel: nat)
    requires GetCoords(p) == GetCoords(q) && Contains(r, p) && fuel > 0
    requires var i := FirstContaining(FreshChildren(r, 1), p);
      i < 4 && Insert(Leaf(FreshChildren(r, 1)[i].rect, 1, map[p := 1], [p], 1), q, fuel - 1) == Err(TooDeep)
    ensures Reinsert(FreshChildren(r, 1), [p, q], fuel) == Err(TooDeep)
  {
    var quads := FreshChildren(r, 1);
    var cs1 := FirstLands(r, p, fuel);
    FirstContainingSameCells(quads, cs1, q);
    ReinsertPairFails(quads, p, q, fuel);
  }

  /** The second key overflows the leaf, which re-inserts both: when that
      runs out of budget, so does the insertion. */
  lemma SecondKeySplits(r: Rect, p: Point, q: Point, fuel: nat)
    requires p != q && GetCoords(p) == GetCoords(q) && Contains(r, p)
    requires Reinsert(FreshChildren(r, 1), [p, q], fuel) == Err(TooDeep)
    ensures Insert(Leaf(r, 1, map[p := 1], [p], 1), q, fuel) == Err(TooDeep)
  {
    var grown := Leaf(r, 1, map[p := 1, q := 1], [p, q], 2);
    assert Contains(r, q);
    assert Bump(map[p := 1], q) == map[p := 1, q := 1];
    assert [p] + [q] == [p, q];
    assert Insert(Leaf(r, 1, map[p := 1], [p], 1), q, fuel) == Subdivide(grown, fuel);
  }

  /** Re-inserting two points fails once either step runs out of budget. */
  lemma ReinsertPairFails(cs: seq<Tree>, p: Point, q: Point, fuel: nat)
    requires Route(cs, p, fuel) == Err(TooDeep) ||
      (Route(cs, p, fuel).Ok? && Route(Route(cs, p, fuel).value, q, fuel) == Err(TooDeep))
    ensures Reinsert(cs, [p, q], fuel) == Err(TooDeep)
  {
    assert [p, q][1..] == [q];
    assert [q][1..] == [];
  }

  /** The first point lands in an empty quadrant and stays there. */
  lemma FirstLands(r: Rect, p: Point, fuel: nat) returns (cs1: seq<Tree>)
    requires Contains(r, p) && fuel > 0
    ensures var quads := FreshChildren(r, 1); var i := FirstContaining(quads, p);
      i < 4 && Route(quads, p, fuel) == Ok(cs1) &&
      cs1 == quads[i := Leaf(quads[i].rect, 1, map[p := 1], [p], 1)] && SameCells(quads, cs1)
  {
    var quads := FreshChildren(r, 1);
    FreshChildrenCover(r, 1, p);
    var i := FirstContaining(quads, p);
    var child := Leaf(quads[i].rect, 1, map[p := 1], [p], 1);
    assert quads[i] == EmptyLeaf(quads[i].rect, 1);
    assert Bump(map[], p) == map[p := 1];
    assert [] + [p] == [p];
    assert Insert(quads[i], p, fuel - 1) == Ok(child);
    cs1 := quads[i := child];
  }

  /** The insertion loop of the bootstrap (lines 277-278). */
  lemma {:induction false} InsertAllCorrect(t: Tree, pts: seq<Point>, fuel: nat)
    requires Valid(t) && Bounded(t)
    requires forall p | p in pts :: Contains(t.rect, p)
    decreases |pts|
    ensures var r := InsertAll(t, pts, fuel);
      (r.Err? ==> r.error == TooDeep) &&
      (r.Ok? ==> Valid(r.value) && Bounded(r.value) &&
                 r.value.rect == t.rect && r.value.maxPoints == t.maxPoints &&
                 r.value.numberOfPoints == t.numberOfPoints + |pts| &&
                 multiset(AllPoints(r.value)) == multiset(AllPoints(t)) + multiset(pts))
  {
    if pts != [] {
      InsertCorrect(t, pts[0], fuel);
      var r := Insert(t, pts[0], fuel);
      if r.Ok? {
        InsertAllCorrect(r.value, pts[1..], fuel);
        HeadTail(pts);
      }
    }
  }

  lemma HeadTail(pts: seq<Point>)
    requires pts != []
    ensures multiset(pts) == multiset{pts[0]} + multiset(pts[1..])
  {
    assert pts == [pts[0]] + pts[1..];
  }

  /** `r` is the tight box of `pts`: it holds every point and each of its four
      sides passes through one of them. */
  ghost predicate IsBoundingBox(pts: seq<Point>, r: Rect)
  {
    (forall p | p in pts :: Contains(r, p)) &&
    (exists p | p in pts :: p.x == r.x0) && (exists p | p in pts :: p.y == r.y0) &&
    (exists p | p in pts :: p.x == r.x1) && (exists p | p in pts :: p.y == r.y1)
  }

  /** `find_bbox` computes the component-wise minimum and maximum. */
  lemma BoundingBoxTight(pts: seq<Point>)
    requires pts != []
    ensures WellFormed(BoundingBox(pts)) && IsBoundingBox(pts, BoundingBox(pts))
  {
    BoundingBoxHolds(pts);
    var lx, ly, hx, hy := BoundingBoxAttained(pts);
    assert pts[lx] in pts && pts[ly] in pts && pts[hx] in pts && pts[hy] in pts;
  }

  lemma {:induction false} BoundingBoxHolds(pts: seq<Point>)
    requires pts != []
    decreases |pts|
    ensures WellFormed(BoundingBox(pts)) && forall p | p in pts :: Contains(BoundingBox(pts), p)
  {
    if |pts| > 1 {
      var init := pts[..|pts| - 1];
      assert pts == init + [pts[|pts| - 1]];
      BoundingBoxHolds(init);
    }
  }

  /** Each side of the box is attained by a point: the indices of those
      points. */
  lemma {:induction false} BoundingBoxAttained(pts: seq<Point>) returns (lx: nat, ly: nat, hx: nat, hy: nat)
    requires pts != []
    decreases |pts|
    ensures lx < |pts| && ly < |pts| && hx < |pts| && hy < |pts|
    ensures var b := BoundingBox(pts);
      pts[lx].x == b.x0 && pts[ly].y == b.y0 && pts[hx].x == b.x1 && pts[hy].y == b.y1
  {
    var n := |pts| - 1;
    if n == 0 {
      return 0, 0, 0, 0;
    }
    var init := pts[..n];
    lx, ly, hx, hy := BoundingBoxAttained(init);
    assert init[lx] == pts[lx] && init[ly] == pts[ly] && init[hx] == pts[hx] && init[hy] == pts[hy];
    var p, b := pts[n], BoundingBox(init);
    if p.x < b.x0 { lx := n; }
    if p.y < b.y0 { ly := n; }
    if p.x > b.x1 { hx := n; }
    if p.y > b.y1 { hy := n; }
  }

  /** `QuadTree(points)`: it fails on no points and otherwise only when the
      recursion budget runs out; on success the root is the bounding box of
      the points, holds every one of them, and its count is their number. */
  lemma BuildCorrect(pts: seq<Point>, fuel: nat)
    ensures var r := Build(pts, fuel);
      (r.Err? ==> r.error == if pts == [] then EmptyInput else TooDeep) &&
      (r.Ok? ==> pts != [] && Valid(r.value) && Bounded(r.value) &&
                 r.value.rect == BoundingBox(pts) && IsBoundingBox(pts, r.value.rect) &&
                 r.value.maxPoints == QuadTreeMaxPoints &&
                 r.value.numberOfPoints == |pts| &&
                 multiset(AllPoints(r.value)) == multiset(pts))
  {
    if pts != [] {
      BoundingBoxTight(pts);
      InsertAllCorrect(EmptyLeaf(BoundingBox(pts), QuadTreeMaxPoints), pts, fuel);
    }
  }
}
