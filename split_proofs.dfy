/** That splits happen: the recursion budget only cuts a run short and never
    changes its result, and a split whose quadrants can take the re-inserted
    points succeeds (quadtree.py lines 105-128, 177-207). */
module SplitProofs {
  import opened Geometry
  import opened Frequencies
  import opened QuadTreeModel
  import opened InsertProofs

  /*
   * Fuel monotonicity: a run that finishes within a budget finishes with
   * the same result under a larger one.
   */

  lemma {:induction false} InsertMono(t: Tree, p: Point, fuel: nat)
    decreases fuel, 3, 0
    ensures Insert(t, p, fuel).Ok? ==> Insert(t, p, fuel + 1) == Insert(t, p, fuel)
  {
    if Contains(t.rect, p) {
      match t
      case Leaf(rect, mp, counts, features, num) =>
        var grown := Leaf(rect, mp, Bump(counts, p), features + [p], num + 1);
        if |grown.counts| > mp {
          SubdivideMono(grown, fuel);
        }
      case Branch(rect, mp, cs, num) =>
        if FirstContaining(cs, p) < |cs| {
          RouteMono(cs, p, fuel);
        }
    }
  }

  lemma {:induction false} RouteMono(cs: seq<Tree>, p: Point, fuel: nat)
    decreases fuel, 0, 0
    ensures Route(cs, p, fuel).Ok? ==> Route(cs, p, fuel + 1) == Route(cs, p, fuel)
  {
    var i := FirstContaining(cs, p);
    if i < |cs| && fuel > 0 {
      InsertMono(cs[i], p, fuel - 1);
    }
  }

  lemma {:induction false} SubdivideMono(t: Tree, fuel: nat)
    decreases fuel, 2, 0
    ensures Subdivide(t, fuel).Ok? ==> Subdivide(t, fuel + 1) == Subdivide(t, fuel)
  {
    if t.Leaf? {
      ReinsertMono(FreshChildren(t.rect, t.maxPoints), t.features, fuel);
    }
  }

  lemma {:induction false} ReinsertMono(cs: seq<Tree>, pts: seq<Point>, fuel: nat)
    decreases fuel, 1, |pts|
    ensures Reinsert(cs, pts, fuel).Ok? ==> Reinsert(cs, pts, fuel + 1) == Reinsert(cs, pts, fuel)
  {
    if pts != [] {
      RouteMono(cs, pts[0], fuel);
      var r := Route(cs, pts[0], fuel);
      if r.Ok? {
        ReinsertMono(r.value, pts[1..], fuel);
      }
    }
  }

  /** Any larger budget gives the same result as a budget that sufficed. */
  lemma {:induction false} InsertFuelIrrelevant(t: Tree, p: Point, fuel: nat, more: nat)
    requires fuel <= more && Insert(t, p, fuel).Ok?
    decreases more - fuel
    ensures Insert(t, p, more) == Insert(t, p, fuel)
  {
    if fuel < more {
      InsertMono(t, p, fuel);
      InsertFuelIrrelevant(t, p, fuel + 1, more);
    }
  }

  /*
   * Splits that succeed: each point re-inserted into a leaf with room for
   * its key is added without a further split.
   */

  /** The distinct points of `pts` that the loop of lines 203-207 hands to
      child `i`. */
  ghost function RoutedTo(cs: seq<Tree>, pts: seq<Point>, i: nat): set<Point>
  {
    set q | q in pts && FirstContaining(cs, q) == i
  }

  /** Every child is a leaf with room for its own keys and for every key
      still to be routed to it. */
  ghost predicate Room(cs: seq<Tree>, pts: seq<Point>)
  {
    forall i | 0 <= i < |cs| ::
      cs[i].Leaf? && |cs[i].counts.Keys + RoutedTo(cs, pts, i)| <= cs[i].maxPoints
  }

  lemma {:induction false} SubsetSize<T>(a: set<T>, b: set<T>)
    requires a <= b
    ensures |a| <= |b|
  {
    if a != {} {
      var x :| x in a;
      SubsetSize(a - {x}, b - {x});
    }
  }

  /** Moving on to the tail of `pts` over the same cells routes no new key. */
  lemma RoutedShrinks(cs: seq<Tree>, cs': seq<Tree>, pts: seq<Point>, j: nat)
    requires pts != [] && SameCells(cs, cs')
    ensures RoutedTo(cs', pts[1..], j) <= RoutedTo(cs, pts, j)
  {
    forall q | q in RoutedTo(cs', pts[1..], j) ensures q in RoutedTo(cs, pts, j) {
      FirstContainingSameCells(cs, cs', q);
    }
  }

  /** Routing the head of `pts` into a leaf with room keeps room for the rest. */
  lemma RoomAfterStep(cs: seq<Tree>, pts: seq<Point>, i: nat, g: Tree)
    requires pts != [] && i == FirstContaining(cs, pts[0]) < |cs| && Room(cs, pts)
    requires g.Leaf? && g.rect == cs[i].rect && g.maxPoints == cs[i].maxPoints
    requires g.counts.Keys == cs[i].counts.Keys + {pts[0]}
    ensures SameCells(cs, cs[i := g]) && Room(cs[i := g], pts[1..])
  {
    var cs' := cs[i := g];
    assert SameCells(cs, cs');
    forall j | 0 <= j < |cs'|
      ensures cs'[j].Leaf? && |cs'[j].counts.Keys + RoutedTo(cs', pts[1..], j)| <= cs'[j].maxPoints
    {
      RoomAt(cs, cs', pts, i, j);
    }
  }

  /** One child of `RoomAfterStep`. */
  lemma RoomAt(cs: seq<Tree>, cs': seq<Tree>, pts: seq<Point>, i: nat, j: nat)
    requires pts != [] && i == FirstContaining(cs, pts[0]) < |cs| && Room(cs, pts)
    requires SameCells(cs, cs') && j < |cs| && cs'[j].Leaf?
    requires cs'[j].counts.Keys == if j == i then cs[i].counts.Keys + {pts[0]} else cs[j].counts.Keys
    ensures |cs'[j].counts.Keys + RoutedTo(cs', pts[1..], j)| <= cs'[j].maxPoints
  {
    RoutedShrinks(cs, cs', pts, j);
    assert pts[0] in RoutedTo(cs, pts, i);
    SubsetSize(cs'[j].counts.Keys + RoutedTo(cs', pts[1..], j), cs[j].counts.Keys + RoutedTo(cs, pts, j));
  }

  /** Re-inserting points into leaves with room for them succeeds, leaving
      leaves within capacity on the same cells. */
  lemma {:induction false} ReinsertWithRoom(cs: seq<Tree>, pts: seq<Point>, fuel: nat)
    requires fuel >= 1 && Room(cs, pts)
    requires forall q | q in pts :: FirstContaining(cs, q) < |cs|
    decreases |pts|
    ensures var r := Reinsert(cs, pts, fuel);
      r.Ok? && SameCells(cs, r.value) &&
      forall i | 0 <= i < |cs| :: r.value[i].Leaf? && |r.value[i].counts| <= r.value[i].maxPoints
  {
    if pts == [] {
      forall i | 0 <= i < |cs| ensures |cs[i].counts| <= cs[i].maxPoints {
        SubsetSize(cs[i].counts.Keys, cs[i].counts.Keys + RoutedTo(cs, pts, i));
      }
    } else {
      var p := pts[0];
      var i := FirstContaining(cs, p);
      var c := cs[i];
      var g := Leaf(c.rect, c.maxPoints, Bump(c.counts, p), c.features + [p], c.numberOfPoints + 1);
      assert p in RoutedTo(cs, pts, i);
      SubsetSize(g.counts.Keys, c.counts.Keys + RoutedTo(cs, pts, i));
      assert Insert(c, p, fuel - 1) == Ok(g);
      var cs' := cs[i := g];
      assert Route(cs, p, fuel) == Ok(cs');
      RoomAfterStep(cs, pts, i, g);
      forall q | q in pts[1..] ensures FirstContaining(cs', q) < |cs'| {
        FirstContainingSameCells(cs, cs', q);
      }
      ReinsertWithRoom(cs', pts[1..], fuel);
    }
  }

  /** `subdivide` (lines 177-207) with any budget of at least one succeeds,
      and stops at one level, when no quadrant is routed more distinct keys
      than the capacity: the result is a branch of four leaves within
      capacity. */
  lemma SubdivideWithRoom(t: Tree, fuel: nat)
    requires t.Leaf? && fuel >= 1
    requires forall q | q in t.features :: Contains(t.rect, q)
    requires forall i | 0 <= i < 4 ::
      |RoutedTo(FreshChildren(t.rect, t.maxPoints), t.features, i)| <= t.maxPoints
    ensures var r := Subdivide(t, fuel);
      r.Ok? && r.value.Branch? && r.value.rect == t.rect && |r.value.children| == 4 &&
      forall i | 0 <= i < 4 ::
        r.value.children[i].Leaf? && |r.value.children[i].counts| <= t.maxPoints
  {
    var qs := FreshChildren(t.rect, t.maxPoints);
    FreshRoom(t.rect, t.maxPoints, t.features);
    ReinsertWithRoom(qs, t.features, fuel);
    var cs := Reinsert(qs, t.features, fuel).value;
    assert Subdivide(t, fuel) == Ok(Branch(t.rect, t.maxPoints, cs, t.numberOfPoints));
  }

  /** Fresh quadrants have room for what is routed to them, and between them
      they take every point of the parent's rectangle. */
  lemma FreshRoom(rect: Rect, mp: nat, pts: seq<Point>)
    requires forall q | q in pts :: Contains(rect, q)
    requires forall i | 0 <= i < 4 :: |RoutedTo(FreshChildren(rect, mp), pts, i)| <= mp
    ensures Room(FreshChildren(rect, mp), pts)
    ensures forall q | q in pts :: FirstContaining(FreshChildren(rect, mp), q) < 4
  {
    var qs := FreshChildren(rect, mp);
    forall i | 0 <= i < 4
      ensures qs[i].Leaf? && |qs[i].counts.Keys + RoutedTo(qs, pts, i)| <= qs[i].maxPoints
    {
      assert qs[i].counts.Keys + RoutedTo(qs, pts, i) == RoutedTo(qs, pts, i);
    }
    forall q | q in pts ensures FirstContaining(qs, q) < 4 {
      FreshChildrenCover(rect, mp, q);
    }
  }

  /** `add_point` of a new key on a full leaf splits it exactly once, and
      succeeds with any budget of at least one, when no quadrant is routed
      more distinct keys than the capacity. */
  lemma InsertSplitsOnce(t: Tree, p: Point, fuel: nat)
    requires Valid(t) && t.Leaf? && Contains(t.rect, p) && fuel >= 1
    requires p !in t.counts && |t.counts| >= t.maxPoints
    requires forall i | 0 <= i < 4 ::
      |RoutedTo(FreshChildren(t.rect, t.maxPoints), t.features + [p], i)| <= t.maxPoints
    ensures var r := Insert(t, p, fuel);
      r.Ok? && r.value.Branch? && |r.value.children| == 4 &&
      forall i | 0 <= i < 4 ::
        r.value.children[i].Leaf? && |r.value.children[i].counts| <= t.maxPoints
  {
    var g := Leaf(t.rect, t.maxPoints, Bump(t.counts, p), t.features + [p], t.numberOfPoints + 1);
    assert |g.counts| == |t.counts| + 1;
    SubdivideWithRoom(g, fuel);
  }

  /** The auto-splitting case of the repository's tests (test.py lines
      165-176), with any budget of at least one: a unit-square leaf of
      capacity one takes (0.25, 0.25), then (0.75, 0.75) splits it into a
      branch counting two points, with the first in the lower-left quadrant,
      the second in the upper-right one (child 2 in the order of lines
      195-200) and the other two empty. */
  lemma AutoSplit(fuel: nat)
    requires fuel >= 1
    ensures var r := Rect(0.0, 0.0, 1.0, 1.0);
      var a := Point(0.25, 0.25, NoData);
      var b := Point(0.75, 0.75, NoData);
      var t1 := Insert(EmptyLeaf(r, 1), a, fuel);
      var t2 := Insert(t1.value, b, fuel);
      t1 == Ok(Leaf(r, 1, map[a := 1], [a], 1)) &&
      t2.Ok? && t2.value.Branch? && t2.value.numberOfPoints == 2 &&
      |t2.value.children| == 4 &&
      AllPoints(t2.value.children[0]) == [a] && AllPoints(t2.value.children[1]) == [] &&
      AllPoints(t2.value.children[2]) == [b] && AllPoints(t2.value.children[3]) == []
  {
    var r := Rect(0.0, 0.0, 1.0, 1.0);
    var a := Point(0.25, 0.25, NoData);
    var b := Point(0.75, 0.75, NoData);
    FirstInsert(r, a, fuel);
    var qs := FreshChildren(r, 1);
    assert Contains(qs[0].rect, a);
    assert !Contains(qs[0].rect, b) && !Contains(qs[1].rect, b) && Contains(qs[2].rect, b);
    SecondKeyOfOne(r, a, b, 0, 2, fuel);
  }

  /** The first point into an empty leaf of capacity one stays in it. */
  lemma FirstInsert(r: Rect, a: Point, fuel: nat)
    requires Contains(r, a)
    ensures Insert(EmptyLeaf(r, 1), a, fuel) == Ok(Leaf(r, 1, map[a := 1], [a], 1))
  {
    var grown := Leaf(r, 1, Bump(map[], a), [] + [a], 0 + 1);
    assert grown == Leaf(r, 1, map[a := 1], [a], 1);
    assert Insert(EmptyLeaf(r, 1), a, fuel) == Ok(grown);
  }

  /** A leaf of capacity one holding `a` takes a second key `b` that falls in
      another quadrant: the result is a branch counting two points, each in
      its own quadrant's leaf. */
  lemma SecondKeyOfOne(r: Rect, a: Point, b: Point, ia: nat, ib: nat, fuel: nat)
    requires Contains(r, b) && a != b && fuel >= 1
    requires ia == FirstContaining(FreshChildren(r, 1), a) < 4
    requires ib == FirstContaining(FreshChildren(r, 1), b) < 4 && ia != ib
    ensures var qs := FreshChildren(r, 1);
      Insert(Leaf(r, 1, map[a := 1], [a], 1), b, fuel) ==
        Ok(Branch(r, 1, qs[ia := Leaf(qs[ia].rect, 1, map[a := 1], [a], 1)]
                          [ib := Leaf(qs[ib].rect, 1, map[b := 1], [b], 1)], 2))
  {
    var qs := FreshChildren(r, 1);
    TwoIntoEmpty(qs, a, b, ia, ib, fuel);
    var cs := qs[ia := Leaf(qs[ia].rect, 1, map[a := 1], [a], 1)]
                [ib := Leaf(qs[ib].rect, 1, map[b := 1], [b], 1)];
    var grown := Leaf(r, 1, Bump(map[a := 1], b), [a] + [b], 2);
    assert |grown.counts| == 2;
    assert Subdivide(grown, fuel) == Ok(Branch(r, 1, cs, 2));
  }

  /** Re-inserting two points that fall in different empty leaves fills
      one leaf with each. */
  lemma TwoIntoEmpty(cs: seq<Tree>, a: Point, b: Point, ia: nat, ib: nat, fuel: nat)
    requires ia == FirstContaining(cs, a) < |cs| && ib == FirstContaining(cs, b) < |cs| && ia != ib
    requires cs[ia] == EmptyLeaf(cs[ia].rect, cs[ia].maxPoints) && cs[ia].maxPoints >= 1
    requires cs[ib] == EmptyLeaf(cs[ib].rect, cs[ib].maxPoints) && cs[ib].maxPoints >= 1
    requires fuel >= 1
    ensures Reinsert(cs, [a, b], fuel) ==
      Ok(cs[ia := Leaf(cs[ia].rect, cs[ia].maxPoints, map[a := 1], [a], 1)]
           [ib := Leaf(cs[ib].rect, cs[ib].maxPoints, map[b := 1], [b], 1)])
  {
    var ca := Leaf(cs[ia].rect, cs[ia].maxPoints, map[a := 1], [a], 1);
    RouteIntoEmpty(cs, a, ia, fuel);
    FirstContainingSameCells(cs, cs[ia := ca], b);
    RouteIntoEmpty(cs[ia := ca], b, ib, fuel);
    ReinsertTwo(cs, a, b, fuel);
  }

  /** Re-inserting two points is routing one, then the other. */
  lemma ReinsertTwo(cs: seq<Tree>, a: Point, b: Point, fuel: nat)
    requires Route(cs, a, fuel).Ok? && Route(Route(cs, a, fuel).value, b, fuel).Ok?
    ensures Reinsert(cs, [a, b], fuel) == Route(Route(cs, a, fuel).value, b, fuel)
  {
    var cs1 := Route(cs, a, fuel).value;
    assert [b][1..] == [];
    assert Reinsert(cs1, [b], fuel) == Route(cs1, b, fuel);
    assert [a, b][1..] == [b];
  }

  /** Routing into an empty leaf, the first cell holding the point, fills it. */
  lemma RouteIntoEmpty(cs: seq<Tree>, p: Point, i: nat, fuel: nat)
    requires i == FirstContaining(cs, p) < |cs| && cs[i].Leaf? && cs[i].counts == map[]
    requires cs[i].features == [] && cs[i].numberOfPoints == 0 && cs[i].maxPoints >= 1 && fuel >= 1
    ensures Route(cs, p, fuel) ==
      Ok(cs[i := Leaf(cs[i].rect, cs[i].maxPoints, map[p := 1], [p], 1)])
  {
    var c := cs[i];
    var grown := Leaf(c.rect, c.maxPoints, Bump(c.counts, p), c.features + [p], c.numberOfPoints + 1);
    assert grown == Leaf(c.rect, c.maxPoints, map[p := 1], [p], 1);
    assert Insert(c, p, fuel - 1) == Ok(grown);
  }
}
