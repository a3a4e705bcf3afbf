/** The rectangles of a region (region/Region.cpp). */
module Regions {
  import opened Geometry
  import Bands

  /** `getRectVector`: the bands of the region library.  A region that is one
      rectangle is listed as that rectangle. */
  function GetRectVector(s: Region): (rects: seq<Rect>)
    ensures IsRectVector(rects, s)
  {
    Bands.BandsAreListed(s);
    Bands.Bands(s)
  }

  /** For proofs that need no more than that. */
  lemma RectVectorLists(s: Region)
    ensures IsRectVector(GetRectVector(s), s)
  {
  }

  /** Two pixels of a row with a gap between them are two rectangles. */
  lemma TwoSpans(p: Point, q: Point)
    requires p.y == q.y && p.x + 1 < q.x
    ensures GetRectVector({p, q}) == [Unit(p), Unit(q)] && !IsRect({p, q})
  {
    Bands.TwoSpans(p, q);
    RectVectorLists({p, q});
  }
}
