/** The query region the overlap queries consume (the `Feature` wrapper of
    quadtree.py lines 40-76), reduced to its three predicates. */
module Regions {
  import opened Geometry

  /** `contains_rectangle`, `intersects_rectangle` and `contains_point`. */
  datatype Region = Region(
    containsRect: Rect -> bool,
    intersectsRect: Rect -> bool,
    containsPoint: Coord -> bool)

  /** A feature over an empty geometry answers false to all three questions. */
  function EmptyRegion(): Region
  {
    Region(_ => false, _ => false, _ => false)
  }

  /** The geometric sanity a real polygon has: a contained rectangle has all
      its points contained, and a rectangle holding a contained point
      intersects the region. No other fact about the predicates is assumed. */
  ghost predicate Consistent(g: Region)
  {
    (forall r, c :: g.containsRect(r) && InRect(c, r) ==> g.containsPoint(c)) &&
    (forall r, c :: g.containsPoint(c) && InRect(c, r) ==> g.intersectsRect(r))
  }
}
