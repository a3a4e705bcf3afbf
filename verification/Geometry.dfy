/** Points, rectangles, dimensions and regions, as used by every other module.

    A region is the finite set of pixels it covers.  `IsRectVector` says which
    lists of rectangles stand for it; the one of the region library is in module
    Regions. */
module Geometry {

  datatype Point = Point(x: int, y: int)

  function Plus(p: Point, d: Point): Point {
    Point(p.x + d.x, p.y + d.y)
  }

  function Minus(p: Point, d: Point): Point {
    Point(p.x - d.x, p.y - d.y)
  }

  datatype Dimension = Dimension(width: int, height: int) {
    function GetRect(): Rect {
      Rect(0, 0, width, height)
    }

    predicate IsEmpty() {
      width <= 0 || height <= 0
    }

    function Area(): int {
      if IsEmpty() then 0 else width * height
    }
  }

  datatype Rect = Rect(left: int, top: int, right: int, bottom: int) {
    predicate IsValid() {
      left <= right && top <= bottom
    }

    function Width(): int {
      right - left
    }

    function Height(): int {
      bottom - top
    }

    predicate IsEmpty() {
      Width() <= 0 || Height() <= 0
    }

    function Area(): int {
      if IsEmpty() then 0 else Width() * Height()
    }

    predicate Contains(p: Point) {
      left <= p.x < right && top <= p.y < bottom
    }

    function TopLeft(): Point {
      Point(left, top)
    }

    function Move(dx: int, dy: int): Rect {
      Rect(left + dx, top + dy, right + dx, bottom + dy)
    }

    function SetLocation(x: int, y: int): Rect {
      Move(x - left, y - top)
    }

    /** The common part of two rectangles, inverted if there is none. */
    function Overlap(other: Rect): Rect {
      Rect(Max(left, other.left), Max(top, other.top), Min(right, other.right), Min(bottom, other.bottom))
    }

    /** The common part of two rectangles.  An inverted result is cleared. */
    function Intersection(other: Rect): Rect {
      if Overlap(other).IsValid() then Overlap(other) else Rect(0, 0, 0, 0)
    }
  }

  lemma IntersectionContains(a: Rect, b: Rect, p: Point)
    ensures a.Intersection(b).Contains(p) <==> a.Contains(p) && b.Contains(p)
  {
  }

  function Max(a: int, b: int): int {
    if a > b then a else b
  }

  function Min(a: int, b: int): int {
    if a < b then a else b
  }

  type Region = set<Point>

  function Pixels(r: Rect): (s: Region)
    ensures forall p: Point :: p in s <==> r.Contains(p)
  {
    set x, y | r.left <= x < r.right && r.top <= y < r.bottom :: Point(x, y)
  }

  function Translate(s: Region, d: Point): (t: Region)
    ensures forall p: Point :: p in t <==> Minus(p, d) in s
  {
    var t := set p | p in s :: Plus(p, d);
    assert forall p: Point :: Minus(p, d) in s ==> Plus(Minus(p, d), d) in t;
    t
  }

  function Crop(s: Region, r: Rect): (t: Region)
    ensures forall p: Point :: p in t <==> p in s && r.Contains(p)
  {
    s * Pixels(r)
  }

  /** Whether `s` is exactly one non-empty rectangle. */
  ghost predicate IsRect(s: Region) {
    exists r: Rect :: !r.IsEmpty() && Pixels(r) == s
  }

  ghost function TheRect(s: Region): (r: Rect)
    requires IsRect(s)
    ensures !r.IsEmpty() && Pixels(r) == s
  {
    var r: Rect :| !r.IsEmpty() && Pixels(r) == s;
    r
  }

  /** A non-empty rectangle is determined by its pixels. */
  lemma PixelsInjective(r: Rect, q: Rect)
    requires !r.IsEmpty() && !q.IsEmpty() && Pixels(r) == Pixels(q)
    ensures r == q
  {
    assert forall p: Point :: r.Contains(p) <==> p in Pixels(r);
    assert forall p: Point :: q.Contains(p) <==> p in Pixels(q);
    assert r.Contains(Point(r.left, r.top)) && r.Contains(Point(r.right - 1, r.bottom - 1));
    assert q.Contains(Point(q.left, q.top)) && q.Contains(Point(q.right - 1, q.bottom - 1));
    assert Point(r.left, r.top) in Pixels(q) && Point(r.right - 1, r.bottom - 1) in Pixels(q);
    assert Point(q.left, q.top) in Pixels(r) && Point(q.right - 1, q.bottom - 1) in Pixels(r);
  }

  lemma TheRectOfPixels(r: Rect)
    requires !r.IsEmpty()
    ensures IsRect(Pixels(r)) && TheRect(Pixels(r)) == r
  {
    assert IsRect(Pixels(r));
    PixelsInjective(TheRect(Pixels(r)), r);
  }

  /** Rectangles that are not empty, are disjoint and cover the region exactly. */
  ghost predicate Partitions(rects: seq<Rect>, s: Region) {
    && (forall i :: 0 <= i < |rects| ==> !rects[i].IsEmpty())
    && (forall i, j :: 0 <= i < j < |rects| ==> Pixels(rects[i]) !! Pixels(rects[j]))
    && (forall p :: p in s <==> exists i :: 0 <= i < |rects| && rects[i].Contains(p))
  }

  /** The rectangles of a region.  A region that is one rectangle is listed as that
      rectangle. */
  ghost predicate IsRectVector(rects: seq<Rect>, s: Region) {
    Partitions(rects, s) && (IsRect(s) ==> rects == [TheRect(s)])
  }

  /** The pixels covered by a list of rectangles. */
  function UnionOf(rects: seq<Rect>): (s: Region)
    ensures forall p :: p in s <==> exists i :: 0 <= i < |rects| && rects[i].Contains(p)
  {
    if rects == [] then {} else UnionOf(rects[..|rects| - 1]) + Pixels(rects[|rects| - 1])
  }

  /** Only the empty region has no rectangles. */
  lemma FirstCorner(rects: seq<Rect>, s: Region)
    requires IsRectVector(rects, s)
    ensures rects != [] <==> s != {}
    ensures rects != [] ==> rects[0].TopLeft() in s
  {
    assert rects != [] ==> rects[0].Contains(rects[0].TopLeft());
  }

  lemma UnionOfRectVector(rects: seq<Rect>, s: Region)
    requires IsRectVector(rects, s)
    ensures UnionOf(rects) == s
  {
  }

  /** `b` is the smallest rectangle around the non-empty region `s`. */
  ghost predicate IsBounds(b: Rect, s: Region) {
    && (forall p :: p in s ==> b.Contains(p))
    && (exists p :: p in s && p.x == b.left)
    && (exists p :: p in s && p.y == b.top)
    && (exists p :: p in s && p.x == b.right - 1)
    && (exists p :: p in s && p.y == b.bottom - 1)
  }

  method GetBounds(s: Region) returns (b: Rect)
    ensures s == {} ==> b == Rect(0, 0, 0, 0)
    ensures s != {} ==> IsBounds(b, s)
  {
    if s == {} {
      return Rect(0, 0, 0, 0);
    }
    var p :| p in s;
    b := Rect(p.x, p.y, p.x + 1, p.y + 1);
    var rest, seen := s - {p}, {p};
    while rest != {}
      invariant seen + rest == s
      invariant IsBounds(b, seen)
    {
      var q :| q in rest;
      ghost var before := seen;
      rest, seen := rest - {q}, seen + {q};
      var next := Rect(Min(b.left, q.x), Min(b.top, q.y), Max(b.right, q.x + 1), Max(b.bottom, q.y + 1));
      assert q in seen && before <= seen;
      b := next;
    }
    assert seen == s;
  }

  function Unit(p: Point): Rect {
    Rect(p.x, p.y, p.x + 1, p.y + 1)
  }
}
