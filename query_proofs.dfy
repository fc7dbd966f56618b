/** What the traversals and the pruned region queries return
    (quadtree.py lines 98-103, 130-175, 230-238). */
module QueryProofs {
  import opened Geometry
  import opened Regions
  import opened Frequencies
  import opened QuadTreeModel
  import opened InsertProofs

  /*
   * Facts about filtering by a region.
   */

  lemma {:induction false} InsideAppend(a: seq<Point>, b: seq<Point>, g: Region)
    ensures Inside(a + b, g) == Inside(a, g) + Inside(b, g)
  {
    if a != [] {
      assert (a + b)[1..] == a[1..] + b;
      assert (a + b)[0] == a[0];
      InsideAppend(a[1..], b, g);
      var head := if Selected(g, a[0]) then [a[0]] else [];
      calc {
        Inside(a + b, g);
        head + Inside(a[1..] + b, g);
        head + (Inside(a[1..], g) + Inside(b, g));
        (head + Inside(a[1..], g)) + Inside(b, g);
      }
    } else {
      assert a + b == b;
    }
  }

  lemma {:induction false} InsideMultiplicity(s: seq<Point>, g: Region, x: Point)
    ensures multiset(Inside(s, g))[x] == if Selected(g, x) then multiset(s)[x] else 0
  {
    if s != [] {
      InsideMultiplicity(s[1..], g, x);
      assert s == [s[0]] + s[1..];
    }
  }

  /** How many points a region selects depends only on the multiset. */
  lemma InsideLength(a: seq<Point>, b: seq<Point>, g: Region)
    requires multiset(a) == multiset(b)
    ensures |Inside(a, g)| == |Inside(b, g)|
  {
    forall x
      ensures multiset(Inside(a, g))[x] == multiset(Inside(b, g))[x]
    {
      InsideMultiplicity(a, g, x);
      InsideMultiplicity(b, g, x);
    }
    assert multiset(Inside(a, g)) == multiset(Inside(b, g));
    assert |multiset(Inside(a, g))| == |Inside(a, g)|;
    assert |multiset(Inside(b, g))| == |Inside(b, g)|;
  }

  lemma {:induction false} InsideRepeat(k: Point, n: nat, g: Region)
    ensures |Inside(Repeat(k, n), g)| == if Selected(g, k) then n else 0
  {
    if n > 0 {
      assert Repeat(k, n) == [k] + Repeat(k, n - 1);
      InsideAppend([k], Repeat(k, n - 1), g);
      InsideRepeat(k, n - 1, g);
    }
  }

  lemma {:induction false} InsideAll(s: seq<Point>, g: Region)
    requires forall p | p in s :: Selected(g, p)
    ensures Inside(s, g) == s
  {
    if s != [] {
      InsideAll(s[1..], g);
      assert s == [s[0]] + s[1..];
    }
  }

  lemma {:induction false} InsideNone(s: seq<Point>, g: Region)
    requires forall p | p in s :: !Selected(g, p)
    ensures Inside(s, g) == []
  {
    if s != [] {
      InsideNone(s[1..], g);
    }
  }

  /** Summing the selected frequencies counts the selected points of the
      expanded list. */
  lemma {:induction false} LeafCountExpand(ks: seq<Point>, m: map<Point, nat>, g: Region)
    decreases |ks|
    ensures LeafCount(ks, m, g) == |Inside(Expand(ks, m), g)|
  {
    if ks != [] {
      var init, k := ks[..|ks| - 1], ks[|ks| - 1];
      LeafCountExpand(init, m, g);
      InsideAppend(Expand(init, m), Repeat(k, Freq(m, k)), g);
      InsideRepeat(k, Freq(m, k), g);
    }
  }

  /** A leaf's manual count (lines 137-140) equals the length of its manual
      list (lines 156-159). */
  lemma LeafCountMatchesInside(f: seq<Point>, g: Region)
    ensures LeafCount(Dedup(f), Tally(f), g) == |Inside(f, g)|
  {
    LeafCountExpand(Dedup(f), Tally(f), g);
    ExpandTally(f);
    InsideLength(Expand(Dedup(f), Tally(f)), f, g);
  }

  /*
   * Traversals.
   */

  /** `get_all_points` returns `number_of_points` points. */
  lemma {:induction false} AllPointsCount(t: Tree)
    requires Valid(t)
    decreases t
    ensures |AllPoints(t)| == t.numberOfPoints
  {
    if t.Branch? {
      AllPointsOfCount(t.children);
    }
  }

  lemma {:induction false} AllPointsOfCount(cs: seq<Tree>)
    requires AllValid(cs)
    decreases cs
    ensures |AllPointsOf(cs)| == SumCounts(cs)
  {
    if cs != [] {
      AllPointsCount(cs[0]);
      AllPointsOfCount(cs[1..]);
    }
  }

  /** Every point stored under a node lies in the node's rectangle. */
  lemma {:induction false} AllPointsInRect(t: Tree)
    requires Valid(t)
    decreases t
    ensures forall p | p in AllPoints(t) :: Contains(t.rect, p)
  {
    if t.Branch? {
      AllPointsOfInRects(t.children);
      assert AllPoints(t) == AllPointsOf(t.children);
      forall p | p in AllPoints(t)
        ensures Contains(t.rect, p)
      {
        var i :| 0 <= i < |t.children| && Contains(t.children[i].rect, p);
        QuadrantsInside(t.rect, i, GetCoords(p));
      }
    }
  }

  lemma {:induction false} AllPointsOfInRects(cs: seq<Tree>)
    requires AllValid(cs)
    decreases cs
    ensures forall p | p in AllPointsOf(cs) :: exists i | 0 <= i < |cs| :: Contains(cs[i].rect, p)
  {
    if cs != [] {
      AllPointsInRect(cs[0]);
      AllPointsOfInRects(cs[1..]);
      assert AllPointsOf(cs) == AllPoints(cs[0]) + AllPointsOf(cs[1..]);
      forall p | p in AllPointsOf(cs)
        ensures exists i | 0 <= i < |cs| :: Contains(cs[i].rect, p)
      {
        if p in AllPoints(cs[0]) {
          assert Contains(cs[0].rect, p);
        } else {
          var j :| 0 <= j < |cs[1..]| && Contains(cs[1..][j].rect, p);
          assert Contains(cs[j + 1].rect, p);
        }
      }
    }
  }

  /** `walk` yields the same points as `get_all_points`, each as often:
      a leaf's frequency map expands back to its list. */
  lemma {:induction false} WalkMatchesAllPoints(t: Tree)
    requires Valid(t)
    decreases t
    ensures multiset(Walk(t)) == multiset(AllPoints(t))
    ensures |Walk(t)| == t.numberOfPoints
  {
    match t
    case Leaf(_, _, _, features, _) =>
      ExpandTally(features);
      assert |multiset(Walk(t))| == |Walk(t)|;
    case Branch(_, _, cs, _) =>
      WalkOfMatches(cs);
      AllPointsCount(t);
      assert |multiset(Walk(t))| == |Walk(t)|;
      assert |multiset(AllPoints(t))| == |AllPoints(t)|;
  }

  lemma {:induction false} WalkOfMatches(cs: seq<Tree>)
    requires AllValid(cs)
    decreases cs
    ensures multiset(WalkOf(cs)) == multiset(AllPointsOf(cs))
  {
    if cs != [] {
      WalkMatchesAllPoints(cs[0]);
      WalkOfMatches(cs[1..]);
    }
  }

  /*
   * The traversals over a list of children, one child at a time: what the
   * loops of lines 137-145, 160-164, 172-175 and 235-238 accumulate.
   */

  lemma {:induction false} AllPointsOfAppend(a: seq<Tree>, b: seq<Tree>)
    ensures AllPointsOf(a + b) == AllPointsOf(a) + AllPointsOf(b)
  {
    if a == [] {
      assert a + b == b;
    } else {
      assert (a + b)[0] == a[0] && (a + b)[1..] == a[1..] + b;
      AllPointsOfAppend(a[1..], b);
    }
  }

  lemma AllPointsOfSnoc(cs: seq<Tree>, k: nat)
    requires k < |cs|
    ensures AllPointsOf(cs[..k + 1]) == AllPointsOf(cs[..k]) + AllPoints(cs[k])
  {
    assert cs[..k + 1] == cs[..k] + [cs[k]];
    AllPointsOfAppend(cs[..k], [cs[k]]);
    assert AllPointsOf([cs[k]]) == AllPoints(cs[k]) + AllPointsOf([]);
  }

  lemma {:induction false} WalkOfAppend(a: seq<Tree>, b: seq<Tree>)
    ensures WalkOf(a + b) == WalkOf(a) + WalkOf(b)
  {
    if a == [] {
      assert a + b == b;
    } else {
      assert (a + b)[0] == a[0] && (a + b)[1..] == a[1..] + b;
      WalkOfAppend(a[1..], b);
    }
  }

  lemma WalkOfSnoc(cs: seq<Tree>, k: nat)
    requires k < |cs|
    ensures WalkOf(cs[..k + 1]) == WalkOf(cs[..k]) + Walk(cs[k])
  {
    assert cs[..k + 1] == cs[..k] + [cs[k]];
    WalkOfAppend(cs[..k], [cs[k]]);
    assert WalkOf([cs[k]]) == Walk(cs[k]) + WalkOf([]);
  }

  lemma {:induction false} CountOverlappingOfAppend(a: seq<Tree>, b: seq<Tree>, g: Region)
    ensures CountOverlappingOf(a + b, g) == CountOverlappingOf(a, g) + CountOverlappingOf(b, g)
  {
    if a == [] {
      assert a + b == b;
    } else {
      assert (a + b)[0] == a[0] && (a + b)[1..] == a[1..] + b;
      CountOverlappingOfAppend(a[1..], b, g);
    }
  }

  lemma CountOverlappingOfSnoc(cs: seq<Tree>, k: nat, g: Region)
    requires k < |cs|
    ensures CountOverlappingOf(cs[..k + 1], g) == CountOverlappingOf(cs[..k], g) + CountOverlapping(cs[k], g)
  {
    assert cs[..k + 1] == cs[..k] + [cs[k]];
    CountOverlappingOfAppend(cs[..k], [cs[k]], g);
    assert CountOverlappingOf([cs[k]], g) == CountOverlapping(cs[k], g) + CountOverlappingOf([], g);
  }

  lemma {:induction false} GetOverlappingOfAppend(a: seq<Tree>, b: seq<Tree>, g: Region)
    ensures GetOverlappingOf(a + b, g) == GetOverlappingOf(a, g) + GetOverlappingOf(b, g)
  {
    if a == [] {
      assert a + b == b;
    } else {
      assert (a + b)[0] == a[0] && (a + b)[1..] == a[1..] + b;
      GetOverlappingOfAppend(a[1..], b, g);
    }
  }

  lemma GetOverlappingOfSnoc(cs: seq<Tree>, k: nat, g: Region)
    requires k < |cs|
    ensures GetOverlappingOf(cs[..k + 1], g) == GetOverlappingOf(cs[..k], g) + GetOverlapping(cs[k], g)
  {
    assert cs[..k + 1] == cs[..k] + [cs[k]];
    GetOverlappingOfAppend(cs[..k], [cs[k]], g);
    assert GetOverlappingOf([cs[k]], g) == GetOverlapping(cs[k], g) + GetOverlappingOf([], g);
  }

  /** Filtering one more point of a list. */
  lemma InsideSnoc(s: seq<Point>, k: nat, g: Region)
    requires k < |s|
    ensures Inside(s[..k + 1], g) == Inside(s[..k], g) + (if Selected(g, s[k]) then [s[k]] else [])
  {
    assert s[..k + 1] == s[..k] + [s[k]];
    InsideAppend(s[..k], [s[k]], g);
  }

  /*
   * The pruned region queries.
   */

  /** For any region, `count_overlapping_points` is the length of
      `get_overlapping_points`: both take the same branch at every node. */
  lemma {:induction false} CountMatchesGet(t: Tree, g: Region)
    requires Valid(t)
    decreases t
    ensures CountOverlapping(t, g) == |GetOverlapping(t, g)|
  {
    if g.containsRect(t.rect) {
      AllPointsCount(t);
    } else if g.intersectsRect(t.rect) {
      match t
      case Leaf(_, _, _, features, _) =>
        LeafCountMatchesInside(features, g);
      case Branch(_, _, cs, _) =>
        CountMatchesGetOf(cs, g);
    }
  }

  lemma {:induction false} CountMatchesGetOf(cs: seq<Tree>, g: Region)
    requires AllValid(cs)
    decreases cs
    ensures CountOverlappingOf(cs, g) == |GetOverlappingOf(cs, g)|
  {
    if cs != [] {
      CountMatchesGet(cs[0], g);
      CountMatchesGetOf(cs[1..], g);
    }
  }

  /** Pruning is sound: for a region whose predicates agree with each other
      as a real polygon's do, the pruned query returns exactly the stored
      points the region contains, in `get_all_points` order. */
  lemma {:induction false} GetOverlappingIsFilter(t: Tree, g: Region)
    requires Valid(t) && Consistent(g)
    decreases t
    ensures GetOverlapping(t, g) == Inside(AllPoints(t), g)
  {
    AllPointsInRect(t);
    if g.containsRect(t.rect) {
      InsideAll(AllPoints(t), g);
    } else if g.intersectsRect(t.rect) {
      if t.Branch? {
        GetOverlappingOfIsFilter(t.children, g);
      }
    } else {
      InsideNone(AllPoints(t), g);
    }
  }

  lemma {:induction false} GetOverlappingOfIsFilter(cs: seq<Tree>, g: Region)
    requires AllValid(cs) && Consistent(g)
    decreases cs
    ensures GetOverlappingOf(cs, g) == Inside(AllPointsOf(cs), g)
  {
    if cs != [] {
      GetOverlappingIsFilter(cs[0], g);
      GetOverlappingOfIsFilter(cs[1..], g);
      InsideAppend(AllPoints(cs[0]), AllPointsOf(cs[1..]), g);
    }
  }

  /** Hence the pruned count is the number of stored points the region
      contains. */
  lemma CountIsFilterLength(t: Tree, g: Region)
    requires Valid(t) && Consistent(g)
    ensures CountOverlapping(t, g) == |Inside(AllPoints(t), g)|
  {
    CountMatchesGet(t, g);
    GetOverlappingIsFilter(t, g);
  }

  /** The three-way branch at the top: a containing region takes every point
      without looking further, a region that neither contains nor meets the
      rectangle takes none, and an empty geometry takes none. */
  lemma QueryShortcuts(t: Tree, g: Region)
    requires Valid(t)
    ensures g.containsRect(t.rect) ==>
      CountOverlapping(t, g) == t.numberOfPoints && GetOverlapping(t, g) == AllPoints(t)
    ensures !g.containsRect(t.rect) && !g.intersectsRect(t.rect) ==>
      CountOverlapping(t, g) == 0 && GetOverlapping(t, g) == []
    ensures CountOverlapping(t, EmptyRegion()) == 0 && GetOverlapping(t, EmptyRegion()) == []
  {
  }
}
