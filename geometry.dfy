/** Points, rectangles and the closed-rectangle test shared by the quadtree
    (quadtree.py lines 13-37, 209-228). Coordinates are exact reals. */
module Geometry {

  /** The optional payload a point carries; a bare coordinate tuple has none. */
  datatype Payload = NoData | Data(value: string)

  /** A point with its payload; two points are equal iff x, y and payload are. */
  datatype Point = Point(x: real, y: real, data: Payload)

  /** A bare coordinate pair, as `get_coords` returns it. */
  datatype Coord = Coord(x: real, y: real)

  /** A rectangle (min x, min y, max x, max y). */
  datatype Rect = Rect(x0: real, y0: real, x1: real, y1: real)

  /** `get_coords`: the coordinates of a point, its payload dropped. */
  function GetCoords(p: Point): Coord
  {
    Coord(p.x, p.y)
  }

  /** `point_in_rectangle`: closed on all four sides. */
  predicate InRect(c: Coord, r: Rect)
  {
    r.x0 <= c.x <= r.x1 && r.y0 <= c.y <= r.y1
  }

  /** `Node.point_coords_in_bbox`: only the point's coordinates matter. */
  predicate Contains(r: Rect, p: Point)
  {
    InRect(GetCoords(p), r)
  }

  predicate WellFormed(r: Rect)
  {
    r.x0 <= r.x1 && r.y0 <= r.y1
  }

  /** `bbox_to_coords`: the four corners, counter-clockwise from (x0, y0).
      A rectangle holds its own corners exactly when it is well formed. */
  function BBoxToCoords(r: Rect): (cs: seq<Coord>)
    ensures |cs| == 4
    ensures cs[0] == Coord(r.x0, r.y0) && cs[2] == Coord(r.x1, r.y1)
    ensures WellFormed(r) <==> forall i | 0 <= i < 4 :: InRect(cs[i], r)
  {
    [Coord(r.x0, r.y0), Coord(r.x1, r.y0), Coord(r.x1, r.y1), Coord(r.x0, r.y1)]
  }

  /** The four quadrants `subdivide` creates, in its fixed order:
      bottom-left, top-left, top-right, bottom-right. */
  function Quadrants(r: Rect): (qs: seq<Rect>)
    ensures |qs| == 4
    ensures forall i | 0 <= i < 4 ::
      qs[i].x1 - qs[i].x0 == (r.x1 - r.x0) / 2.0 && qs[i].y1 - qs[i].y0 == (r.y1 - r.y0) / 2.0
  {
    var hw := (r.x1 - r.x0) / 2.0;
    var hh := (r.y1 - r.y0) / 2.0;
    [ Rect(r.x0, r.y0, r.x0 + hw, r.y0 + hh),
      Rect(r.x0, r.y0 + hh, r.x0 + hw, r.y1),
      Rect(r.x0 + hw, r.y0 + hh, r.x1, r.y1),
      Rect(r.x0 + hw, r.y0, r.x1, r.y0 + hh) ]
  }

  /** The test is closed on all four sides, so a well-formed rectangle holds
      its edges and corners, and it looks only at the coordinates: points
      differing only in payload are placed alike. */
  lemma ClosedBounds(r: Rect, p: Point, d: Payload)
    ensures Contains(r, p) <==> r.x0 <= p.x <= r.x1 && r.y0 <= p.y <= r.y1
    ensures Contains(r, p) <==> Contains(r, Point(p.x, p.y, d))
    ensures WellFormed(r) ==> forall c | c in BBoxToCoords(r) :: InRect(c, r)
  {
    var cs := BBoxToCoords(r);
    if WellFormed(r) {
      forall c | c in cs
        ensures InRect(c, r)
      {
        var i :| 0 <= i < 4 && cs[i] == c;
      }
    }
  }

  /** With exact halving the four quadrants cover their parent. */
  lemma QuadrantsCover(r: Rect, c: Coord)
    requires InRect(c, r)
    ensures exists i | 0 <= i < 4 :: InRect(c, Quadrants(r)[i])
  {
    var qs := Quadrants(r);
    var mx, my := r.x0 + (r.x1 - r.x0) / 2.0, r.y0 + (r.y1 - r.y0) / 2.0;
    if c.x <= mx && c.y <= my {
      assert InRect(c, qs[0]);
    } else if c.x <= mx {
      assert InRect(c, qs[1]);
    } else if c.y >= my {
      assert InRect(c, qs[2]);
    } else {
      assert InRect(c, qs[3]);
    }
  }

  /** Every quadrant lies inside its parent. */
  lemma QuadrantsInside(r: Rect, i: int, c: Coord)
    requires 0 <= i < 4 && InRect(c, Quadrants(r)[i])
    ensures InRect(c, r)
  {
  }
}
