/** How the region library lists a region (region/x11region.c): band by band from
    top to bottom, and in a band span by span from left to right.  Bands are as
    high and spans as wide as possible, so the pixels alone fix the list. */
module Bands {
  import opened Geometry

  predicate Precedes(p: Point, q: Point) {
    p.y < q.y || (p.y == q.y && p.x <= q.x)
  }

  lemma {:induction false} HasFirst(s: Region)
    requires s != {}
    ensures exists p :: p in s && forall q :: q in s ==> Precedes(p, q)
    decreases |s|
  {
    var p :| p in s;
    var rest := s - {p};
    assert forall q :: q in s ==> q == p || q in rest;
    if rest == {} {
      assert forall q :: q in s ==> Precedes(p, q);
    } else {
      HasFirst(rest);
      var k :| k in rest && forall q :: q in rest ==> Precedes(k, q);
      var first := if Precedes(p, k) then p else k;
      assert first in s && forall q :: q in s ==> Precedes(first, q);
    }
  }

  function First(s: Region): (p: Point)
    requires s != {}
    ensures p in s && forall q :: q in s ==> Precedes(p, q)
  {
    HasFirst(s);
    var p :| p in s && forall q :: q in s ==> Precedes(p, q);
    p
  }

  function InRow(s: Region, y: int): (t: Region)
    ensures forall p :: p in t <==> p in s && p.y == y
  {
    set p | p in s && p.y == y
  }

  function FromRow(s: Region, y: int): (t: Region)
    ensures forall p :: p in t <==> p in s && p.y >= y
  {
    set p | p in s && p.y >= y
  }

  function FromColumn(s: Region, x: int): (t: Region)
    ensures forall p :: p in t <==> p in s && p.x >= x
  {
    set p | p in s && p.x >= x
  }

  function Columns(s: Region, y: int): (xs: set<int>)
    ensures forall x :: x in xs <==> Point(x, y) in s
  {
    var xs := set p | p in s && p.y == y :: p.x;
    assert forall x :: Point(x, y) in s ==> Point(x, y).x in xs;
    xs
  }

  /** Where the span from `p` on ends. */
  function SpanEnd(s: Region, p: Point): (x: int)
    ensures p.x <= x && Point(x, p.y) !in s && forall k :: p.x <= k < x ==> Point(k, p.y) in s
    ensures p in s ==> p.x < x
    decreases FromColumn(s, p.x)
  {
    if p in s then
      assert p in FromColumn(s, p.x) && p !in FromColumn(s, p.x + 1);
      SpanEnd(s, Point(p.x + 1, p.y))
    else p.x
  }

  /** Where the band that starts in the row of `p` ends. */
  function BandEnd(s: Region, p: Point, y: int): (bottom: int)
    requires p in s
    ensures y <= bottom && Columns(s, bottom) != Columns(s, p.y)
    ensures forall k :: y <= k < bottom ==> Columns(s, k) == Columns(s, p.y)
    decreases FromRow(s, y)
  {
    if Columns(s, y) == Columns(s, p.y) then
      assert p.x in Columns(s, p.y);
      assert Point(p.x, y) in FromRow(s, y) && Point(p.x, y) !in FromRow(s, y + 1);
      BandEnd(s, p, y + 1)
    else y
  }

  /** The spans of a row, each down to `bottom`. */
  function Spans(row: Region, bottom: int): (rects: seq<Rect>)
    decreases row
  {
    if row == {} then []
    else
      var p := First(row);
      var right := SpanEnd(row, p);
      assert p !in FromColumn(row, right);
      [Rect(p.x, p.y, right, bottom)] + Spans(FromColumn(row, right), bottom)
  }

  function Bands(s: Region): (rects: seq<Rect>)
    decreases s
  {
    if s == {} then []
    else
      var p := First(s);
      var bottom := BandEnd(s, p, p.y);
      assert p.y < bottom && p !in FromRow(s, bottom);
      Spans(InRow(s, p.y), bottom) + Bands(FromRow(s, bottom))
  }

  // ---------- It is a list of the region ----------

  ghost predicate SpansOf(rects: seq<Rect>, row: Region, y: int, bottom: int) {
    && (forall i :: 0 <= i < |rects| ==>
          rects[i].top == y && rects[i].bottom == bottom && rects[i].left < rects[i].right)
    && (forall i, j :: 0 <= i < j < |rects| ==> rects[i].right < rects[j].left)
    && (forall i, x :: 0 <= i < |rects| && rects[i].left <= x < rects[i].right ==> Point(x, y) in row)
    && (forall p :: p in row ==> exists i :: 0 <= i < |rects| && rects[i].left <= p.x < rects[i].right)
  }

  lemma {:induction false} SpansListRow(row: Region, y: int, bottom: int)
    requires forall p :: p in row ==> p.y == y
    ensures SpansOf(Spans(row, bottom), row, y, bottom)
    decreases row
  {
    if row != {} {
      var p := First(row);
      var right := SpanEnd(row, p);
      assert p !in FromColumn(row, right);
      SpansListRow(FromColumn(row, right), y, bottom);
      SpanAdded(row, p, right, y, bottom, Spans(FromColumn(row, right), bottom));
    }
  }

  lemma SpanAdded(row: Region, p: Point, right: int, y: int, bottom: int, rest: seq<Rect>)
    requires p in row && (forall q :: q in row ==> q.y == y && p.x <= q.x) && p.x < right
    requires Point(right, y) !in row && forall k :: p.x <= k < right ==> Point(k, y) in row
    requires SpansOf(rest, FromColumn(row, right), y, bottom)
    ensures SpansOf([Rect(p.x, y, right, bottom)] + rest, row, y, bottom)
  {
    var rects := [Rect(p.x, y, right, bottom)] + rest;
    SpansAfter(row, right, y, bottom, rest);
    forall i | 0 < i < |rects|
      ensures rects[i].top == y && rects[i].bottom == bottom && right < rects[i].left < rects[i].right
    {
      assert rects[i] == rest[i - 1];
    }
    forall i, j | 0 <= i < j < |rects| ensures rects[i].right < rects[j].left {
      assert i > 0 ==> rects[i] == rest[i - 1] && rects[j] == rest[j - 1];
    }
    forall i, x | 0 <= i < |rects| && rects[i].left <= x < rects[i].right ensures Point(x, y) in row {
      assert i > 0 ==> rects[i] == rest[i - 1];
    }
    forall q | q in row ensures exists i :: 0 <= i < |rects| && rects[i].left <= q.x < rects[i].right {
      SpanFound(row, p, right, y, bottom, rest, q);
    }
  }

  lemma SpanFound(row: Region, p: Point, right: int, y: int, bottom: int, rest: seq<Rect>, q: Point)
    requires SpansOf(rest, FromColumn(row, right), y, bottom) && q in row && p.x <= q.x
    ensures var rects := [Rect(p.x, y, right, bottom)] + rest;
            exists i :: 0 <= i < |rects| && rects[i].left <= q.x < rects[i].right
  {
    var rects := [Rect(p.x, y, right, bottom)] + rest;
    if q.x < right {
      assert rects[0].left <= q.x < rects[0].right;
    } else {
      assert q in FromColumn(row, right);
      var i :| 0 <= i < |rest| && rest[i].left <= q.x < rest[i].right;
      assert rects[i + 1] == rest[i];
    }
  }

  lemma SpansAfter(row: Region, right: int, y: int, bottom: int, rest: seq<Rect>)
    requires SpansOf(rest, FromColumn(row, right), y, bottom) && Point(right, y) !in row
    ensures forall i :: 0 <= i < |rest| ==> right < rest[i].left
  {
    forall i | 0 <= i < |rest| ensures right < rest[i].left {
      assert Point(rest[i].left, y) in FromColumn(row, right);
    }
  }

  /** A band holds the region between its top and its bottom. */
  lemma BandLists(s: Region, p: Point, bottom: int, rects: seq<Rect>)
    requires p in s && p.y < bottom && forall k :: p.y <= k < bottom ==> Columns(s, k) == Columns(s, p.y)
    requires SpansOf(rects, InRow(s, p.y), p.y, bottom)
    requires forall q :: q in s ==> p.y <= q.y
    ensures Partitions(rects, s - FromRow(s, bottom))
  {
    hide SpansOf, Columns;
    SpansApart(rects, InRow(s, p.y), p.y, bottom);
    forall q ensures q in s - FromRow(s, bottom) <==> exists i :: 0 <= i < |rects| && rects[i].Contains(q) {
      BandHolds(s, p, bottom, rects, q);
    }
  }

  lemma BandHolds(s: Region, p: Point, bottom: int, rects: seq<Rect>, q: Point)
    requires p in s && p.y < bottom && forall k :: p.y <= k < bottom ==> Columns(s, k) == Columns(s, p.y)
    requires SpansOf(rects, InRow(s, p.y), p.y, bottom) && forall o :: o in s ==> p.y <= o.y
    ensures q in s && q.y < bottom <==> exists i :: 0 <= i < |rects| && rects[i].Contains(q)
  {
    var r := Point(q.x, p.y);
    if q in s && q.y < bottom {
      assert q.x in Columns(s, q.y);
      assert r in InRow(s, p.y);
      var i :| 0 <= i < |rects| && rects[i].left <= r.x < rects[i].right;
      assert rects[i].Contains(q);
    }
    forall i | 0 <= i < |rects| && rects[i].Contains(q) ensures q in s && q.y < bottom {
      assert r in InRow(s, p.y);
      assert q.x in Columns(s, p.y) && q.x in Columns(s, q.y);
    }
  }

  lemma SpansApart(rects: seq<Rect>, row: Region, y: int, bottom: int)
    requires SpansOf(rects, row, y, bottom)
    ensures forall i :: 0 <= i < |rects| ==> rects[i].top == y && rects[i].bottom == bottom
    ensures forall i :: 0 <= i < |rects| ==> rects[i].left < rects[i].right
    ensures forall i, j :: 0 <= i < j < |rects| ==> Pixels(rects[i]) !! Pixels(rects[j])
  {
    forall i, j | 0 <= i < j < |rects| ensures Pixels(rects[i]) !! Pixels(rects[j]) {
      assert rects[i].right < rects[j].left;
    }
  }

  lemma ListedApart(a: seq<Rect>, s: Region, b: seq<Rect>, t: Region)
    requires Partitions(a, s) && Partitions(b, t) && s !! t
    ensures Partitions(a + b, s + t)
  {
    var rects := a + b;
    forall i, j | 0 <= i < j < |rects| ensures Pixels(rects[i]) !! Pixels(rects[j]) {
      if i < |a| <= j {
        assert rects[i] == a[i] && rects[j] == b[j - |a|];
        assert Pixels(a[i]) <= s && Pixels(b[j - |a|]) <= t;
      }
    }
    forall p | p in s + t ensures exists i :: 0 <= i < |rects| && rects[i].Contains(p) {
      if p in s {
        var i :| 0 <= i < |a| && a[i].Contains(p);
        assert rects[i].Contains(p);
      } else {
        var i :| 0 <= i < |b| && b[i].Contains(p);
        assert rects[|a| + i].Contains(p);
      }
    }
    forall p, i | 0 <= i < |rects| && rects[i].Contains(p) ensures p in s + t {
      if i < |a| {
        assert a[i].Contains(p);
      } else {
        assert b[i - |a|].Contains(p);
      }
    }
  }

  lemma {:induction false} BandsList(s: Region)
    ensures Partitions(Bands(s), s)
    decreases s
  {
    hide Partitions, SpansOf, Spans;
    if s == {} {
      NothingListed();
    } else {
      var p := First(s);
      var bottom := BandEnd(s, p, p.y);
      assert p.y < bottom && p !in FromRow(s, bottom);
      BandsList(FromRow(s, bottom));
      SpansListRow(InRow(s, p.y), p.y, bottom);
      BandLists(s, p, bottom, Spans(InRow(s, p.y), bottom));
      ListedApart(Spans(InRow(s, p.y), bottom), s - FromRow(s, bottom), Bands(FromRow(s, bottom)), FromRow(s, bottom));
      assert s == (s - FromRow(s, bottom)) + FromRow(s, bottom);
    }
  }

  lemma NothingListed()
    ensures Partitions([], {})
  {
  }

  lemma RectIsOneBand(r: Rect)
    requires !r.IsEmpty()
    ensures Bands(Pixels(r)) == [r]
  {
    hide SpanEnd, BandEnd, Columns, Spans, Pixels;
    var s := Pixels(r);
    assert r.TopLeft() in s;
    var p := First(s);
    assert p == r.TopLeft();
    RectEndsAt(r, BandEnd(s, p, p.y));
    RectIsOneSpan(r, InRow(s, p.y));
    assert FromRow(s, r.bottom) == {};
    assert Bands({}) == [];
  }

  lemma RectIsOneSpan(r: Rect, row: Region)
    requires !r.IsEmpty() && forall q :: q in row <==> r.Contains(q) && q.y == r.top
    ensures Spans(row, r.bottom) == [r]
  {
    hide SpanEnd;
    assert r.TopLeft() in row;
    var p := First(row);
    assert p == r.TopLeft();
    var right := SpanEnd(row, p);
    assert Point(r.right, p.y) !in row && (right < r.right ==> Point(right, p.y) in row);
    assert FromColumn(row, right) == {};
    assert Spans({}, r.bottom) == [];
  }

  lemma RectEndsAt(r: Rect, bottom: int)
    requires !r.IsEmpty() && r.TopLeft() in Pixels(r) && bottom == BandEnd(Pixels(r), r.TopLeft(), r.top)
    ensures bottom == r.bottom
  {
    hide BandEnd;
    var s := Pixels(r);
    assert r.left in Columns(s, r.top) && r.left !in Columns(s, r.bottom);
    assert forall k, x :: r.top <= k < r.bottom ==> (x in Columns(s, k) <==> x in Columns(s, r.top));
    assert r.top <= bottom < r.bottom ==> Columns(s, bottom) == Columns(s, r.top);
  }

  /** The bands are a list of the region, and those of a rectangle are that rectangle. */
  lemma BandsAreListed(s: Region)
    ensures IsRectVector(Bands(s), s)
  {
    hide Bands;
    BandsList(s);
    if IsRect(s) {
      RectIsOneBand(TheRect(s));
    }
  }

  /** A region within one row is one band. */
  lemma OneRowBand(s: Region, p: Point)
    requires p in s && forall q :: q in s ==> q.y == p.y && p.x <= q.x
    ensures Bands(s) == Spans(s, p.y + 1)
  {
    hide BandEnd, Spans;
    assert First(s) == p;
    RowEnds(s, p, BandEnd(s, p, p.y));
    assert InRow(s, p.y) == s && FromRow(s, p.y + 1) == {};
    assert Bands({}) == [];
  }

  lemma RowEnds(s: Region, p: Point, bottom: int)
    requires p in s && (forall q :: q in s ==> q.y == p.y) && bottom == BandEnd(s, p, p.y)
    ensures bottom == p.y + 1
  {
    hide BandEnd;
    assert p.x in Columns(s, p.y) && p.x !in Columns(s, p.y + 1);
  }

  /** Two pixels of a row with a gap between them. */
  lemma TwoSpans(p: Point, q: Point)
    requires p.y == q.y && p.x + 1 < q.x
    ensures Bands({p, q}) == [Unit(p), Unit(q)]
  {
    hide Bands, Spans;
    OneRowBand({p, q}, p);
    OnePixelSpan({p, q}, p, p.y + 1);
    assert FromColumn({p, q}, p.x + 1) == {q};
    OnePixelSpan({q}, q, p.y + 1);
    assert FromColumn({q}, q.x + 1) == {};
    NoSpan(p.y + 1);
  }

  lemma NoSpan(bottom: int)
    ensures Spans({}, bottom) == []
  {
  }

  lemma OnePixelSpan(row: Region, p: Point, bottom: int)
    requires p in row && Point(p.x + 1, p.y) !in row && forall q :: q in row ==> Precedes(p, q)
    ensures Spans(row, bottom) == [Rect(p.x, p.y, p.x + 1, bottom)] + Spans(FromColumn(row, p.x + 1), bottom)
  {
    hide SpanEnd;
    assert First(row) == p;
    var right := SpanEnd(row, p);
    assert right > p.x + 1 ==> Point(p.x + 1, p.y) in row;
  }
}
