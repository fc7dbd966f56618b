/** The mutable `Node` of quadtree.py (lines 79-241) and the `QuadTree`
    bootstrap (lines 268-299). Each node is an object whose fields the
    operations update in place; the ghost field `model` holds the value it
    stands for, and every operation is proved to do to that value what the
    functions of QuadTreeModel say. */
module Nodes {
  import opened Geometry
  import opened QuadTreeModel
  import opened Frequencies
  import opened Regions
  import opened InsertProofs
  import opened QueryProofs

  /** How an in-place operation ended: normally, or with the source's exception. */
  datatype Outcome = Pass | Fail(error: Error)

  class Node {
    const rect: Rect
    const maxPoints: nat
    var isLeaf: bool                   // `type` is LEAF (else BRANCH)
    var children: seq<Node>
    var counts: map<Point, nat>        // `_points`
    var features: seq<Point>
    var numberOfPoints: nat
    ghost var model: Tree              // the value this node stands for
    ghost var Repr: set<object>

    /** The node owns its children, each owning a disjoint part of the heap;
        a leaf has no children, a branch exactly four and no points; `model`
        is the node's fields with each child replaced by its own `model`. */
    ghost predicate Valid()
      reads this, Repr
      decreases Repr
      ensures Valid() ==> this in Repr && model.rect == rect && model.maxPoints == maxPoints &&
                          model.numberOfPoints == numberOfPoints && (model.Leaf? <==> isLeaf)
    {
      this in Repr &&
      model.rect == rect && model.maxPoints == maxPoints && model.numberOfPoints == numberOfPoints &&
      (isLeaf ==> children == [] && model == Leaf(rect, maxPoints, counts, features, numberOfPoints)) &&
      (!isLeaf ==>
        counts == map[] && features == [] && model.Branch? &&
        |children| == 4 && |model.children| == 4 &&
        (forall k, l | 0 <= k < l < 4 :: children[k] != children[l]) &&
        (forall c | c in children :: c in Repr && c.Repr <= Repr && this !in c.Repr && c.Valid()) &&
        (forall c, d | c in children && d in children && c != d :: c.Repr !! d.Repr) &&
        (forall k | 0 <= k < 4 :: model.children[k] == children[k].model))
    }

    /** `Node.__init__`: an empty leaf. */
    constructor (rect: Rect, maxPoints: nat := DefaultMaxPoints)
      ensures Valid() && fresh(Repr) && Repr == {this}
      ensures model == EmptyLeaf(rect, maxPoints)
      ensures this.rect == rect && this.maxPoints == maxPoints && isLeaf && children == [] &&
              counts == map[] && features == [] && numberOfPoints == 0
    {
      this.rect := rect;
      this.maxPoints := maxPoints;
      isLeaf := true;
      children := [];
      counts := map[];
      features := [];
      numberOfPoints := 0;
      model := EmptyLeaf(rect, maxPoints);
      Repr := {this};
    }

    /** `add_point` (lines 105-128). */
    method AddPoint(p: Point, fuel: nat) returns (r: Outcome)
      requires Valid()
      modifies Repr
      decreases fuel, 3
      ensures r.Pass? ==> Valid() && fresh(Repr - old(Repr)) && Insert(old(model), p, fuel) == Ok(model)
      ensures r.Fail? ==> Insert(old(model), p, fuel) == Err(r.error)
      ensures !Contains(rect, p) ==> r == Fail(OutOfBounds) && unchanged(old(Repr)) && Valid()
      ensures r.Pass? && QuadTreeModel.Valid(old(model)) ==>
        QuadTreeModel.Valid(model) && (Bounded(old(model)) ==> Bounded(model))
    {
      ghost var before := model;
      if !Contains(rect, p) {
        r := Fail(OutOfBounds);
      } else if isLeaf {
        r := AddToLeaf(p, fuel);
      } else {
        r := AddToBranch(p, fuel);
      }
      if r.Pass? && QuadTreeModel.Valid(before) {
        InsertCorrect(before, p, fuel);
      }
    }

    /** Lines 109-118: a leaf records the point in its map, its list and its
        count, and splits when it then holds more than `maxPoints` keys. */
    method AddToLeaf(p: Point, fuel: nat) returns (r: Outcome)
      requires Valid() && isLeaf && Contains(rect, p)
      modifies Repr
      decreases fuel, 2
      ensures r.Pass? ==> Valid() && fresh(Repr - old(Repr)) && Insert(old(model), p, fuel) == Ok(model)
      ensures r.Fail? ==> Insert(old(model), p, fuel) == Err(r.error)
    {
      counts := Bump(counts, p);
      features := features + [p];
      numberOfPoints := numberOfPoints + 1;
      model := Leaf(rect, maxPoints, counts, features, numberOfPoints);
      if |counts| > maxPoints {
        r := Subdivide(fuel);
      } else {
        r := Pass;
      }
    }

    /** Lines 119-125: a branch hands the point to the first child that holds
        it and counts it once that child has taken it. */
    method AddToBranch(p: Point, fuel: nat) returns (r: Outcome)
      requires Valid() && !isLeaf && Contains(rect, p)
      modifies Repr
      decreases fuel, 2
      ensures r.Pass? ==> Valid() && fresh(Repr - old(Repr)) && Insert(old(model), p, fuel) == Ok(model)
      ensures r.Fail? ==> Insert(old(model), p, fuel) == Err(r.error)
    {
      var i := ChildFor(p);
      if i == 4 {
        return Pass;
      } else if fuel == 0 {
        return Fail(TooDeep);
      }
      ghost var before := model;
      r := AddToChild(i, p, fuel);
      InsertIntoChild(before, p, fuel, i);
      if r.Pass? {
        ghost var c := model.children[i];
        CountOne();
        assert model == Branch(before.rect, before.maxPoints, before.children[i := c], before.numberOfPoints + 1);
      }
    }

    /** `self.number_of_points += 1` at a branch (line 124). */
    method CountOne()
      requires Valid() && !isLeaf
      modifies this
      ensures Valid() && Repr == old(Repr) && !isLeaf
      ensures model == Branch(rect, maxPoints, old(model).children, old(numberOfPoints) + 1)
    {
      numberOfPoints, model := numberOfPoints + 1, Branch(rect, maxPoints, model.children, numberOfPoints + 1);
      BranchValid(this);
    }

    /** The search of lines 121-125 and 204-207: the first child, in the
        fixed quadrant order, whose rectangle holds `p` (4 if none does). */
    method ChildFor(p: Point) returns (i: nat)
      requires Valid() && !isLeaf
      ensures i == FirstContaining(model.children, p)
    {
      i := 0;
      while i < 4 && !Contains(children[i].rect, p)
        invariant 0 <= i <= 4
        invariant forall j | 0 <= j < i :: !Contains(model.children[j].rect, p)
      {
        assert children[i] in children;
        i := i + 1;
      }
      if i < 4 {
        assert children[i] in children;
      }
    }

    /** `child.add_point(point)` on the chosen child (lines 123 and 206). */
    method AddToChild(i: nat, p: Point, fuel: nat) returns (r: Outcome)
      requires Valid() && !isLeaf && i < 4 && fuel > 0
      modifies Repr
      decreases fuel, 0
      ensures r.Pass? ==>
        Valid() && fresh(Repr - old(Repr)) && !isLeaf && numberOfPoints == old(numberOfPoints) &&
        model == Branch(rect, maxPoints, old(model).children[i := model.children[i]], numberOfPoints) &&
        Insert(old(model).children[i], p, fuel - 1) == Ok(model.children[i])
      ensures r.Fail? ==> Insert(old(model).children[i], p, fuel - 1) == Err(r.error)
    {
      var c := children[i];
      assert c in children;
      r := c.AddPoint(p, fuel - 1);
      if r.Pass? {
        Repr, model := Repr + c.Repr, model.(children := model.children[i := c.model]);
      }
    }

    /** `subdivide` (lines 177-207): only a leaf may be split; it becomes a
        branch over four fresh leaves and re-inserts its list into them. */
    method Subdivide(fuel: nat) returns (r: Outcome)
      requires Valid()
      modifies Repr
      decreases fuel, 1
      ensures r.Pass? ==>
        Valid() && fresh(Repr - old(Repr)) && QuadTreeModel.Subdivide(old(model), fuel) == Ok(model) &&
        !isLeaf && |children| == 4 && counts == map[] && features == [] &&
        numberOfPoints == old(numberOfPoints)
      ensures r.Fail? ==> QuadTreeModel.Subdivide(old(model), fuel) == Err(r.error)
      ensures !old(isLeaf) ==> r == Fail(NotLeaf) && unchanged(old(Repr)) && Valid()
      ensures r.Pass? && QuadTreeModel.Valid(old(model)) ==> QuadTreeModel.Valid(model) && Bounded(model)
    {
      if !isLeaf {
        return Fail(NotLeaf);
      }
      ghost var before := model;
      var pending := features;
      Split();
      ghost var start := model.children;
      var k := 0;
      while k < |pending|
        invariant 0 <= k <= |pending|
        invariant Valid() && !isLeaf && fresh(Repr - old(Repr))
        invariant model == Branch(rect, maxPoints, model.children, old(numberOfPoints))
        invariant Reinsert(start, pending, fuel) == Reinsert(model.children, pending[k..], fuel)
      {
        ghost var now := model.children;
        var i := ChildFor(pending[k]);
        if i < 4 {
          if fuel == 0 {
            return Fail(TooDeep);
          }
          r := AddToChild(i, pending[k], fuel);
          if r.Fail? {
            return;
          }
        }
        assert Route(now, pending[k], fuel) == Ok(model.children);
        assert pending[k..][0] == pending[k] && pending[k..][1..] == pending[k + 1..];
        k := k + 1;
      }
      r := Pass;
      if QuadTreeModel.Valid(before) {
        SubdivideCorrect(before, fuel);
      }
    }

    /** Lines 186-202: the leaf forgets its points, becomes a branch and
        gets four fresh empty leaves on its quadrants. */
    method Split()
      requires Valid() && isLeaf
      modifies this
      ensures Valid() && fresh(Repr - old(Repr)) && forall c | c in children :: fresh(c)
      ensures model == Branch(rect, maxPoints, FreshChildren(rect, maxPoints), old(numberOfPoints))
    {
      var cs := NewQuadrants(rect, maxPoints);
      ghost var added := set c | c in cs;
      assert fresh(added);
      forall c: Node | c in cs
        ensures c.Valid()
      {
        EmptyLeafValid(c);
      }
      counts, features, isLeaf, children := map[], [], false, cs;
      Repr, model := Repr + added, Branch(rect, maxPoints, FreshChildren(rect, maxPoints), numberOfPoints);
      BranchValid(this);
    }

    /** The `points` property (lines 98-103): every key of `_points`, in the
        order keys were first inserted, repeated as often as it was added. */
    method Points() returns (ps: seq<Point>)
      requires Valid() && isLeaf
      ensures ps == LeafPoints(model)
    {
      var keys := Dedup(features);  // the iteration order of `_points`
      ps := [];
      for k := 0 to |keys|
        invariant ps == Expand(keys[..k], counts)
      {
        ps := ps + Repeat(keys[k], Freq(counts, keys[k]));
        assert keys[..k + 1][..k] == keys[..k];
      }
      assert keys[..|keys|] == keys;
    }

    /** `get_all_points` (lines 168-175). */
    method GetAllPoints() returns (ps: seq<Point>)
      requires Valid()
      decreases Repr
      ensures ps == AllPoints(model)
    {
      if isLeaf {
        return features;
      }
      ps := [];
      for k := 0 to 4
        invariant ps == AllPointsOf(model.children[..k])
      {
        var c := children[k];
        assert c in children;
        var q := c.GetAllPoints();
        ps := ps + q;
        AllPointsOfSnoc(model.children, k);
      }
      assert model.children[..4] == model.children;
    }

    /** `walk` (lines 230-238), as the sequence it yields. */
    method Walk() returns (ps: seq<Point>)
      requires Valid()
      decreases Repr
      ensures ps == QuadTreeModel.Walk(model)
    {
      if isLeaf {
        ps := Points();
        return;
      }
      ps := [];
      for k := 0 to 4
        invariant ps == WalkOf(model.children[..k])
      {
        var c := children[k];
        assert c in children;
        var q := c.Walk();
        ps := ps + q;
        WalkOfSnoc(model.children, k);
      }
      assert model.children[..4] == model.children;
    }

    /** `count_overlapping_points` (lines 130-147). */
    method CountOverlappingPoints(g: Region) returns (n: nat)
      requires Valid()
      decreases Repr
      ensures n == CountOverlapping(model, g)
    {
      if g.containsRect(rect) {
        return numberOfPoints;
      } else if !g.intersectsRect(rect) {
        return 0;
      }
      n := 0;
      if isLeaf {
        var keys := Dedup(features);
        for k := 0 to |keys|
          invariant n == LeafCount(keys[..k], counts, g)
        {
          if g.containsPoint(GetCoords(keys[k])) {
            n := n + Freq(counts, keys[k]);
          }
          assert keys[..k + 1][..k] == keys[..k];
        }
        assert keys[..|keys|] == keys;
      } else {
        for k := 0 to 4
          invariant n == CountOverlappingOf(model.children[..k], g)
        {
          var c := children[k];
          assert c in children;
          var m := c.CountOverlappingPoints(g);
          n := n + m;
          CountOverlappingOfSnoc(model.children, k, g);
        }
        assert model.children[..4] == model.children;
      }
    }

    /** `get_overlapping_points` (lines 149-166). */
    method GetOverlappingPoints(g: Region) returns (ps: seq<Point>)
      requires Valid()
      decreases Repr
      ensures ps == GetOverlapping(model, g)
    {
      if g.containsRect(rect) {
        ps := GetAllPoints();
        return;
      } else if !g.intersectsRect(rect) {
        return [];
      }
      ps := [];
      if isLeaf {
        for k := 0 to |features|
          invariant ps == Inside(features[..k], g)
        {
          if g.containsPoint(GetCoords(features[k])) {
            ps := ps + [features[k]];
          }
          InsideSnoc(features, k, g);
        }
        assert features[..|features|] == features;
      } else {
        for k := 0 to 4
          invariant ps == GetOverlappingOf(model.children[..k], g)
        {
          var c := children[k];
          assert c in children;
          var q := c.GetOverlappingPoints(g);
          ps := ps + q;
          GetOverlappingOfSnoc(model.children, k, g);
        }
        assert model.children[..4] == model.children;
      }
    }
  }

  /** A fresh empty leaf is valid. */
  lemma EmptyLeafValid(n: Node)
    requires n.isLeaf && n.children == [] && n.counts == map[] && n.features == [] && n.numberOfPoints == 0
    requires n.Repr == {n} && n.model == EmptyLeaf(n.rect, n.maxPoints)
    ensures n.Valid()
  {
  }

  /** A branch whose parts are in order is valid: `Valid` spelled out for
      the branch case, so that a method can establish it piece by piece. */
  lemma BranchValid(n: Node)
    requires n in n.Repr && !n.isLeaf && n.counts == map[] && n.features == []
    requires n.model.Branch? && n.model == Branch(n.rect, n.maxPoints, n.model.children, n.numberOfPoints)
    requires |n.children| == 4 && |n.model.children| == 4
    requires forall k, l | 0 <= k < l < 4 :: n.children[k] != n.children[l]
    requires forall c | c in n.children :: c in n.Repr && c.Repr <= n.Repr && n !in c.Repr && c.Valid()
    requires forall c, d | c in n.children && d in n.children && c != d :: c.Repr !! d.Repr
    requires forall k | 0 <= k < 4 :: n.model.children[k] == n.children[k].model
    ensures n.Valid()
  {
  }

  /** One step of `Insert` at a branch whose routing finds child `i`. */
  lemma InsertIntoChild(t: Tree, p: Point, fuel: nat, i: nat)
    requires t.Branch? && Contains(t.rect, p) && fuel > 0
    requires i == FirstContaining(t.children, p) < |t.children|
    ensures Insert(t, p, fuel) ==
      match Insert(t.children[i], p, fuel - 1)
      case Err(e) => Err(e)
      case Ok(c) => Ok(Branch(t.rect, t.maxPoints, t.children[i := c], t.numberOfPoints + 1))
  {
  }

  /** Four fresh empty leaves on the quadrants of `rect`, in order (lines 195-202). */
  method NewQuadrants(rect: Rect, maxPoints: nat) returns (cs: seq<Node>)
    ensures |cs| == 4 && forall i | 0 <= i < 4 :: cs[i].model == FreshChildren(rect, maxPoints)[i]
    ensures forall c | c in cs ::
      fresh(c) && c.Repr == {c} && c.isLeaf && c.children == [] && c.counts == map[] &&
      c.features == [] && c.numberOfPoints == 0 && c.model == EmptyLeaf(c.rect, c.maxPoints)
    ensures forall i, j | 0 <= i < j < 4 :: cs[i] != cs[j]
  {
    var qs := Quadrants(rect);
    var c0 := new Node(qs[0], maxPoints);
    var c1 := new Node(qs[1], maxPoints);
    var c2 := new Node(qs[2], maxPoints);
    var c3 := new Node(qs[3], maxPoints);
    cs := [c0, c1, c2, c3];
  }

  /** `QuadTree.find_bbox` (lines 281-299): fails on no points, like the
      source's `points[0]`. */
  method FindBBox(points: seq<Point>) returns (r: Result<Rect>)
    ensures r == BBoxOf(points)
  {
    if |points| == 0 {
      return Err(EmptyInput);
    }
    var minx, miny, maxx, maxy := points[0].x, points[0].y, points[0].x, points[0].y;
    for i := 0 to |points|
      invariant Rect(minx, miny, maxx, maxy) == BoundingBox(points[..if i == 0 then 1 else i])
    {
      var p := points[i];
      if p.x < minx {
        minx := p.x;
      }
      if p.x > maxx {
        maxx := p.x;
      }
      if p.y < miny {
        miny := p.y;
      }
      if p.y > maxy {
        maxy := p.y;
      }
      assert points[..i + 1][..i] == points[..i];
    }
    assert points[..|points|] == points;
    return Ok(Rect(minx, miny, maxx, maxy));
  }

  /** The loop of lines 277-278: `add_point` on every point in order,
      stopping at the first failure. */
  method AddAll(root: Node, points: seq<Point>, fuel: nat) returns (r: Outcome)
    requires root.Valid()
    modifies root.Repr
    ensures r.Pass? ==>
      root.Valid() && fresh(root.Repr - old(root.Repr)) && InsertAll(old(root.model), points, fuel) == Ok(root.model)
    ensures r.Fail? ==> InsertAll(old(root.model), points, fuel) == Err(r.error)
  {
    var k := 0;
    while k < |points|
      invariant 0 <= k <= |points|
      invariant root.Valid() && fresh(root.Repr - old(root.Repr))
      invariant InsertAll(old(root.model), points, fuel) == InsertAll(root.model, points[k..], fuel)
    {
      var out := root.AddPoint(points[k], fuel);
      assert points[k..][0] == points[k] && points[k..][1..] == points[k + 1..];
      if out.Fail? {
        return out;
      }
      k := k + 1;
    }
    return Pass;
  }

  /** `QuadTree(points)` (lines 269-278): a root leaf over the bounding box
      with capacity 11, then every point added in order. */
  method NewQuadTree(points: seq<Point>, fuel: nat) returns (r: Result<Node>)
    ensures r.Ok? ==> fresh(r.value.Repr) && r.value.Valid() && Build(points, fuel) == Ok(r.value.model)
    ensures r.Ok? ==>
      r.value.rect == BoundingBox(points) && r.value.maxPoints == QuadTreeMaxPoints &&
      r.value.numberOfPoints == |points| && QuadTreeModel.Valid(r.value.model) && Bounded(r.value.model) &&
      multiset(AllPoints(r.value.model)) == multiset(points) && Placed(r.value.model)
    ensures r.Err? ==> Build(points, fuel) == Err(r.error)
    ensures r.Err? ==> r.error == if points == [] then EmptyInput else TooDeep
  {
    var box := FindBBox(points);
    if box.Err? {
      return Err(box.error);
    }
    var root := new Node(box.value, QuadTreeMaxPoints);
    var out := AddAll(root, points, fuel);
    BuildCorrect(points, fuel);
    if out.Fail? {
      return Err(out.error);
    }
    BuildPlaced(points, fuel);
    return Ok(root);
  }
}
