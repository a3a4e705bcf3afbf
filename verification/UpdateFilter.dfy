/** The update filter (desktop/UpdateFilter.cpp): compare the backup picture with
    the grabbed screen by bytes, skipping lines and merging blocks, and bring
    the backup up to date.

    Two pointers of the source always advance together, one in each buffer, so
    one offset stands for both. */
module UpdateFilters {
  import opened Geometry
  import opened Regions
  import opened Frames
  import opened FrameBuffers
  import opened PixelDiffs
  import opened ScreenDrivers
  import opened GrabOptimizators
  import opened UpdateKeepers

  // ---------- Bytes and pixels of one row ----------

  /** Byte `i` after offset `at` differs. */
  ghost predicate ByteDiffers(s: seq<byte>, t: seq<byte>, at: int, i: int) {
    0 <= at + i < |s| && at + i < |t| && s[at + i] != t[at + i]
  }

  /** Byte `i` of a stretch of a row belongs to its pixel `i / bpp`. */
  lemma PixelOfByte(s: seq<byte>, t: seq<byte>, dim: Dimension, bpp: nat, y: int, l: int, n: int, i: int)
    requires Fits(s, dim, bpp) && Fits(t, dim, bpp)
    requires 0 <= y < dim.height && 0 <= l && l + n <= dim.width
    requires 0 <= i < n * bpp && ByteDiffers(s, t, (y * dim.width + l) * bpp, i)
    ensures 0 <= i / bpp < n
    ensures Differs(ContentOf(s, dim, bpp), ContentOf(t, dim, bpp), Point(l + i / bpp, y))
  {
    hide ContentOf, Dimension.Area, ByteDiffers, Stretch;
    var c := i / bpp;
    DivBounds(i, bpp, n);
    var p := Point(l + c, y);
    PixelIsStretch(s, dim, bpp, p);
    PixelIsStretch(t, dim, bpp, p);
    IndexInside(dim, bpp, p);
    StretchByte(s, t, bpp, y * dim.width + l, c, i);
  }

  lemma DivBounds(i: nat, bpp: nat, n: int)
    requires bpp > 0 && i < n * bpp
    ensures 0 <= i / bpp < n
    ensures i / bpp * bpp <= i < i / bpp * bpp + bpp
  {
    if i / bpp >= n {
      MulMonotone(n, i / bpp, bpp);
    }
  }

  lemma SlicesDiffer(s: seq<byte>, t: seq<byte>, from: nat, to: nat, i: nat)
    requires from <= i < to <= |s| == |t| && s[i] != t[i]
    ensures s[from..to] != t[from..to]
  {
    assert s[from..to][i - from] == s[i] && t[from..to][i - from] == t[i];
  }

  /** A differing byte makes its pixel differ. */
  lemma StretchByte(s: seq<byte>, t: seq<byte>, bpp: nat, k: nat, c: nat, i: nat)
    requires c * bpp <= i < c * bpp + bpp && ByteDiffers(s, t, k * bpp, i)
    requires (k + c) * bpp <= (k + c + 1) * bpp <= |s| == |t|
    ensures Stretch(s, bpp, k + c) != Stretch(t, bpp, k + c)
  {
    Distribute(k, c, bpp);
    Distribute(k + c, 1, bpp);
    var from, to := (k + c) * bpp, (k + c + 1) * bpp;
    assert Stretch(s, bpp, k + c) == s[from..to] && Stretch(t, bpp, k + c) == t[from..to];
    SlicesDiffer(s, t, from, to, k * bpp + i);
  }

  /** A differing pixel has a differing byte. */
  lemma ByteOfPixel(s: seq<byte>, t: seq<byte>, dim: Dimension, bpp: nat, y: int, l: int, n: int, p: Point)
    returns (i: int)
    requires Fits(s, dim, bpp) && Fits(t, dim, bpp)
    requires 0 <= y < dim.height && 0 <= l && l + n <= dim.width
    requires p.y == y && l <= p.x < l + n && Differs(ContentOf(s, dim, bpp), ContentOf(t, dim, bpp), p)
    ensures 0 <= i < n * bpp && ByteDiffers(s, t, (y * dim.width + l) * bpp, i) && i / bpp == p.x - l
  {
    hide ContentOf, Dimension.Area;
    var k, c := y * dim.width + l, p.x - l;
    MulMonotone(0, y, dim.width);
    PixelIsStretch(s, dim, bpp, p);
    PixelIsStretch(t, dim, bpp, p);
    IndexInside(dim, bpp, p);
    var j := StretchesDiffer(s, t, bpp, k, c);
    i := c * bpp + j;
    MulMonotone(0, c, bpp);
    MulMonotone(c + 1, n, bpp);
    Distribute(c, 1, bpp);
    DivUnique(i, bpp, c);
  }

  lemma DivUnique(i: nat, b: nat, c: nat)
    requires b > 0 && c * b <= i < c * b + b
    ensures i / b == c
  {
    var q := i / b;
    if q < c {
      RowStride(q, c, b);
    } else if q > c {
      RowStride(c, q, b);
    }
  }

  lemma StretchesDiffer(s: seq<byte>, t: seq<byte>, bpp: nat, k: nat, c: nat) returns (j: nat)
    requires (k + c) * bpp <= (k + c + 1) * bpp <= |s| == |t|
    requires Stretch(s, bpp, k + c) != Stretch(t, bpp, k + c)
    ensures j < bpp && ByteDiffers(s, t, k * bpp, c * bpp + j)
  {
    Distribute(k, c, bpp);
    Distribute(k + c, 1, bpp);
    var a, b := Stretch(s, bpp, k + c), Stretch(t, bpp, k + c);
    MulMonotone(0, k, bpp);
    MulMonotone(0, c, bpp);
    j :| 0 <= j < bpp && a[j] != b[j];
    assert a[j] == s[k * bpp + (c * bpp + j)] && b[j] == t[k * bpp + (c * bpp + j)];
  }

  lemma CompareIsDiffers(f: Frame, g: Frame, y: int, l: int, r: int)
    requires f.Keys == g.Keys
    ensures SameRow(f, g, y, l, r - l, Point(0, 0)) <==> !RowDiffers(f, g, y, l, r)
  {
    forall p | p in f ensures Plus(p, Point(0, 0)) == p {
    }
  }

  // ---------- Trimming by bytes ----------

  /** Byte `i` of the part of row `y` from column `l` on differs. */
  ghost predicate RowByteDiffers(s: seq<byte>, t: seq<byte>, dim: Dimension, bpp: nat, l: int, len: int, y: int,
                                 i: int) {
    0 <= i < len && ByteDiffers(s, t, (y * dim.width + l) * bpp, i)
  }

  /** All differing bytes of the rows lie between the two bounds. */
  ghost predicate Enclosed(s: seq<byte>, t: seq<byte>, dim: Dimension, bpp: nat, l: int, len: int,
                           top: int, bottom: int, left: int, right: int) {
    forall y, i :: top <= y < bottom && RowByteDiffers(s, t, dim, bpp, l, len, y, i) ==> left <= i <= right
  }

  ghost predicate Reached(s: seq<byte>, t: seq<byte>, dim: Dimension, bpp: nat, l: int, len: int,
                          top: int, bottom: int, i: int) {
    exists y :: top <= y < bottom && RowByteDiffers(s, t, dim, bpp, l, len, y, i)
  }

  /** One more row with its own outermost bytes. */
  lemma NextRowEnclosed(s: seq<byte>, t: seq<byte>, dim: Dimension, bpp: nat, l: int, len: int,
                        top: int, y: int, left: int, right: int, left': int, right': int)
    requires 0 <= left' <= left < len && 0 <= right <= right' < len && top <= y
    requires Enclosed(s, t, dim, bpp, l, len, top, y, left, right)
    requires left == len - 1 || Reached(s, t, dim, bpp, l, len, top, y, left)
    requires right == 0 || Reached(s, t, dim, bpp, l, len, top, y, right)
    requires var at := (y * dim.width + l) * bpp;
             && (forall i :: 0 <= i < len - 1 && ByteDiffers(s, t, at, i) ==> left' <= i)
             && (forall i :: 0 < i < len && ByteDiffers(s, t, at, i) ==> i <= right')
             && (left' == left || ByteDiffers(s, t, at, left')) && (right' == right || ByteDiffers(s, t, at, right'))
    ensures Enclosed(s, t, dim, bpp, l, len, top, y + 1, left', right')
    ensures left' == len - 1 || Reached(s, t, dim, bpp, l, len, top, y + 1, left')
    ensures right' == 0 || Reached(s, t, dim, bpp, l, len, top, y + 1, right')
  {
    hide ByteDiffers;
    if left' != left {
      assert RowByteDiffers(s, t, dim, bpp, l, len, y, left');
    }
    if right' != right {
      assert RowByteDiffers(s, t, dim, bpp, l, len, y, right');
    }
    forall row, i | top <= row < y + 1 && RowByteDiffers(s, t, dim, bpp, l, len, row, i) ensures left' <= i <= right' {
      if row == y {
        assert ByteDiffers(s, t, (y * dim.width + l) * bpp, i);
      }
    }
  }

  /** The start values of the search stand for bytes that differ, if any does. */
  lemma FirstRowByte(s: seq<byte>, t: seq<byte>, dim: Dimension, bpp: nat, r: Rect)
    requires Fits(s, dim, bpp) && Fits(t, dim, bpp) && Inside(r, dim.GetRect()) && !r.IsEmpty()
    requires FirstRowDiffers(ContentOf(s, dim, bpp), ContentOf(t, dim, bpp), r)
    ensures exists i :: RowByteDiffers(s, t, dim, bpp, r.left, r.Width() * bpp, r.top, i)
  {
    hide ContentOf, ByteDiffers;
    var p: Point :| p.y == r.top && r.left <= p.x < r.right &&
      Differs(ContentOf(s, dim, bpp), ContentOf(t, dim, bpp), p);
    var i := ByteOfPixel(s, t, dim, bpp, r.top, r.left, r.Width(), p);
    assert RowByteDiffers(s, t, dim, bpp, r.left, r.Width() * bpp, r.top, i);
  }

  lemma ReachedPixel(s: seq<byte>, t: seq<byte>, dim: Dimension, bpp: nat, r: Rect, i: int) returns (p: Point)
    requires Fits(s, dim, bpp) && Fits(t, dim, bpp) && Inside(r, dim.GetRect())
    requires Reached(s, t, dim, bpp, r.left, r.Width() * bpp, r.top, r.bottom, i)
    ensures r.Contains(p) && p.x == r.left + i / bpp && Differs(ContentOf(s, dim, bpp), ContentOf(t, dim, bpp), p)
  {
    var y :| r.top <= y < r.bottom && RowByteDiffers(s, t, dim, bpp, r.left, r.Width() * bpp, y, i);
    PixelOfByte(s, t, dim, bpp, y, r.left, r.Width(), i);
    p := Point(r.left + i / bpp, y);
  }

  lemma EnclosedPixel(s: seq<byte>, t: seq<byte>, dim: Dimension, bpp: nat, r: Rect, left: int, right: int, p: Point)
    requires Fits(s, dim, bpp) && Fits(t, dim, bpp) && Inside(r, dim.GetRect()) && 0 <= left && 0 <= right
    requires Enclosed(s, t, dim, bpp, r.left, r.Width() * bpp, r.top, r.bottom, left, right)
    requires r.Contains(p) && Differs(ContentOf(s, dim, bpp), ContentOf(t, dim, bpp), p)
    ensures r.left + left / bpp <= p.x <= r.left + right / bpp
  {
    hide ContentOf;
    var i := ByteOfPixel(s, t, dim, bpp, p.y, r.left, r.Width(), p);
    assert RowByteDiffers(s, t, dim, bpp, r.left, r.Width() * bpp, p.y, i);
    DivMonotone(left, i, bpp);
    DivMonotone(i, right, bpp);
  }

  lemma DivMonotone(a: nat, b: nat, c: nat)
    requires a <= b && c > 0
    ensures a / c <= b / c
  {
    DivBounds(a, c, a + 1) by {
      MulMonotone(1, c, a + 1);
    }
    DivBounds(b, c, b + 1) by {
      MulMonotone(1, c, b + 1);
    }
    if a / c > b / c {
      RowStride(b / c, a / c, c);
    }
  }

  /** The trimmed rectangle is the smallest around all differing pixels. */
  lemma TrimmedIsTight(s: seq<byte>, t: seq<byte>, dim: Dimension, bpp: nat, r: Rect, bottom: int, left: int,
                       right: int)
    requires Fits(s, dim, bpp) && Fits(t, dim, bpp) && Inside(r, dim.GetRect())
    requires r.top < bottom <= r.bottom && 0 <= left && 0 <= right
    requires FirstRowDiffers(ContentOf(s, dim, bpp), ContentOf(t, dim, bpp), r)
    requires RowDiffers(ContentOf(s, dim, bpp), ContentOf(t, dim, bpp), bottom - 1, r.left, r.right)
    requires RowsEqual(ContentOf(s, dim, bpp), ContentOf(t, dim, bpp), bottom, r.bottom, r.left, r.right)
    requires Enclosed(s, t, dim, bpp, r.left, r.Width() * bpp, r.top, bottom, left, right)
    requires Reached(s, t, dim, bpp, r.left, r.Width() * bpp, r.top, bottom, left)
    requires Reached(s, t, dim, bpp, r.left, r.Width() * bpp, r.top, bottom, right)
    ensures IsTight(ContentOf(s, dim, bpp), ContentOf(t, dim, bpp), r,
                    Rect(r.left + left / bpp, r.top, r.left + right / bpp + 1, bottom))
  {
    hide ContentOf, Enclosed, Reached;
    var f, g := ContentOf(s, dim, bpp), ContentOf(t, dim, bpp);
    var box := Rect(r.left + left / bpp, r.top, r.left + right / bpp + 1, bottom);
    var rows := r.(bottom := bottom);
    forall p | r.Contains(p) && Differs(f, g, p) ensures box.Contains(p) {
      assert p.y < bottom by {
        assert p.y >= bottom ==> RowDiffers(f, g, p.y, r.left, r.right);
      }
      EnclosedPixel(s, t, dim, bpp, rows, left, right, p);
    }
    var a := ReachedPixel(s, t, dim, bpp, rows, left);
    var b := ReachedPixel(s, t, dim, bpp, rows, right);
    var c: Point :| c.y == r.top && r.left <= c.x < r.right && Differs(f, g, c);
    var d: Point :| d.y == bottom - 1 && r.left <= d.x < r.right && Differs(f, g, d);
    assert {a, b, c, d} <= Diff(f, g, Pixels(r));
  }

  // ---------- Joining blocks ----------

  /** A changed block joins the changed blocks before it. */
  lemma JoinBlock(f: Frame, g: Frame, y: int, left: int, x: int, right: int, top: int, ay: int)
    requires left < x <= right && y <= top && y <= ay
    requires RowsEqual(f, g, y, top, left, x) && RowDiffers(f, g, top, left, x)
    requires RowsEqual(f, g, y, ay, x, right) && RowDiffers(f, g, ay, x, right)
    ensures RowsEqual(f, g, y, Min(top, ay), left, right)
    ensures RowDiffers(f, g, Min(top, ay), left, right)
  {
    hide RowDiffers;
    RowsEqualJoin(f, g, y, Min(top, ay), left, x, right);
    RowDiffersSplit(f, g, Min(top, ay), left, x, right);
  }

  /** A changed block at the right of joined ones. */
  lemma BlockJoined(f: Frame, g: Frame, r: Rect, n: nat, right: int, ay: int)
    requires IsJoined(f, g, r) && r.right == r.left + BLOCK_SIZE * n && r.right < right <= r.right + BLOCK_SIZE
    requires r.top < r.bottom && ay < r.bottom <= ay + BLOCK_SIZE && RowDiffers(f, g, ay, r.right, right)
    ensures IsJoined(f, g, Rect(r.left, Min(r.top, ay), right, r.bottom))
  {
    hide Differs;
    var s := Rect(r.left, Min(r.top, ay), right, r.bottom);
    forall k: nat | s.left + BLOCK_SIZE * k < s.right ensures BlockDiffers(f, g, s, k) {
      if k < n {
        assert BlockDiffers(f, g, r, k);
      } else {
        assert k == n;
      }
    }
  }

  /** All rectangles end before a column. */
  predicate EndBefore(rects: seq<Rect>, x: int) {
    forall i :: 0 <= i < |rects| ==> rects[i].right < x
  }

  /** Joined blocks are passed on, without the equal rows above them. */
  lemma AddJoined(f: Frame, g: Frame, left: int, y: int, r: Rect, rgn: Region, before: Region,
                  passed: seq<Rect>, boxes: seq<Rect>, box: Rect)
    requires left <= r.left <= r.right && y <= r.top <= r.bottom
    requires Filtered(f, g, Rect(left, y, r.left, r.bottom), rgn, before, passed, boxes)
    requires RowsEqual(f, g, y, r.top, r.left, r.right)
    requires FirstRowDiffers(f, g, r) && IsJoined(f, g, r) && IsTight(f, g, r, box) && EndBefore(passed, r.left)
    ensures Filtered(f, g, Rect(left, y, r.right, r.bottom), rgn, before + Pixels(box), passed + [r], boxes + [box])
  {
    hide Filtered, IsTight, RowDiffers, RowsEqual, Differs, IsJoined;
    FilteredOne(f, g, r, before, box);
    var a, c := Rect(left, y, r.left, r.bottom), Rect(left, y, r.right, r.bottom);
    forall p | c.Contains(p) && !a.Contains(p) && !r.Contains(p) ensures !Differs(f, g, p) {
      EqualPixel(f, g, y, r.top, r.left, r.right, p);
    }
    FilteredAppend(f, g, a, r, c, rgn, before, before + Pixels(box), passed, boxes, [r], [box]);
  }

  /** An unchanged block needs nothing. */
  lemma SkipBlock(f: Frame, g: Frame, left: int, x: int, right: int, y: int, bottom: int,
                  rgn: Region, after: Region, passed: seq<Rect>, boxes: seq<Rect>)
    requires left <= x <= right && y <= bottom
    requires Filtered(f, g, Rect(left, y, x, bottom), rgn, after, passed, boxes)
    requires RowsEqual(f, g, y, bottom, x, right)
    ensures Filtered(f, g, Rect(left, y, right, bottom), rgn, after, passed, boxes)
  {
    hide Filtered, RowsEqual, Differs;
    var a, c := Rect(left, y, x, bottom), Rect(left, y, right, bottom);
    forall p | c.Contains(p) && !a.Contains(p) ensures !Differs(f, g, p) {
      EqualPixel(f, g, y, bottom, x, right, p);
    }
    FilteredMore(f, g, a, c, rgn, after, passed, boxes);
  }

  // ---------- Skipping lines ----------

  lemma RowsFurther(y: int, n: int, w: int, l: int, bpp: int)
    ensures ((y + n) * w + l) * bpp == (y * w + l) * bpp + n * (w * bpp)
    ensures ((y + n) * w + l) * bpp == (y * w + l) * bpp + w * bpp * n
  {
    Distribute(y, n, w);
    Distribute(y * w + l, n * w, bpp);
    assert n * w * bpp == n * (w * bpp);
    assert n * (w * bpp) == w * bpp * n;
  }

  lemma RowsEqualNone(f: Frame, g: Frame, r: Rect)
    ensures RowsEqual(f, g, r.top, r.top, r.left, r.right)
  {
  }

  lemma RowsEqualNext(f: Frame, g: Frame, r: Rect, y: int)
    requires RowsEqual(f, g, r.top, y, r.left, r.right) && !RowDiffers(f, g, y, r.left, r.right)
    ensures RowsEqual(f, g, r.top, y + 1, r.left, r.right)
  {
  }

  lemma AllRowsEqual(f: Frame, g: Frame, r: Rect, rgn: Region)
    requires RowsEqual(f, g, r.top, r.bottom, r.left, r.right)
    ensures Filtered(f, g, r, rgn, rgn, [], [])
  {
    hide Differs, RowsEqual, Filtered;
    forall p | r.Contains(p) ensures !Differs(f, g, p) {
      EqualPixel(f, g, r.top, r.bottom, r.left, r.right, p);
    }
    FilteredNothing(f, g, r, rgn);
  }

  lemma AddBelowEqual(f: Frame, g: Frame, r: Rect, y: int, rgn: Region, box: Rect)
    requires r.IsValid() && r.top <= y < r.bottom && RowsEqual(f, g, r.top, y, r.left, r.right)
    requires RowDiffers(f, g, y, r.left, r.right) && IsTight(f, g, r.(top := y), box)
    requires r.Width() <= BLOCK_SIZE && r.Height() <= BLOCK_SIZE
    ensures Filtered(f, g, r, rgn, rgn + Pixels(box), [r.(top := y)], [box])
  {
    hide Differs, RowsEqual, Filtered, IsTight, RowDiffers, IsJoined;
    SmallIsJoined(f, g, r.(top := y));
    FilteredOne(f, g, r.(top := y), rgn, box);
    forall p | r.Contains(p) && !r.(top := y).Contains(p) ensures !Differs(f, g, p) {
      EqualPixel(f, g, r.top, y, r.left, r.right, p);
    }
    FilteredMore(f, g, r.(top := y), r, rgn, rgn + Pixels(box), [r.(top := y)], [box]);
  }

  lemma SkipRow(f: Frame, g: Frame, r: Rect, y: int, rgn: Region, after: Region, passed: seq<Rect>, boxes: seq<Rect>)
    requires r.IsValid() && r.top <= y < r.bottom && !RowDiffers(f, g, y, r.left, r.right)
    requires Filtered(f, g, r.(bottom := y), rgn, after, passed, boxes)
    ensures Filtered(f, g, r.(bottom := y + 1), rgn, after, passed, boxes)
  {
    hide Filtered, Differs;
    assert RowsEqual(f, g, y, y + 1, r.left, r.right);
    forall p | r.(bottom := y + 1).Contains(p) && !r.(bottom := y).Contains(p) ensures !Differs(f, g, p) {
      EqualPixel(f, g, y, y + 1, r.left, r.right, p);
    }
    FilteredMore(f, g, r.(bottom := y), r.(bottom := y + 1), rgn, after, passed, boxes);
  }

  // ---------- The whole filter ----------

  /** The picture after moving every rectangle from the same source point. */
  ghost function MovedAll(f: Frame, rects: seq<Rect>, src: Point): (m: Frame)
    ensures m.Keys == f.Keys
  {
    if rects == [] then f
    else
      var m := MovedAll(f, rects[..|rects| - 1], src);
      Copied(m, rects[|rects| - 1], m, src)
  }

  /** `f` with the pixels of `s` taken from `g`. */
  function Patched(f: Frame, s: Region, g: Frame): (m: Frame)
    ensures m.Keys == f.Keys
  {
    map p | p in f :: if p in s && p in g then g[p] else f[p]
  }

  lemma PatchedNothing(f: Frame, g: Frame)
    ensures Patched(f, {}, g) == f
  {
  }

  lemma UnionOfNone()
    ensures forall rects: seq<Rect> :: UnionOf(rects[..0]) == {}
  {
  }

  lemma UnionOfNext(rects: seq<Rect>, i: nat)
    requires i < |rects|
    ensures UnionOf(rects[..i + 1]) == UnionOf(rects[..i]) + Pixels(rects[i])
  {
    assert rects[..i + 1][..i] == rects[..i];
  }

  lemma PatchedMore(f: Frame, rects: seq<Rect>, i: nat, g: Frame)
    requires i < |rects|
    ensures Copied(Patched(f, UnionOf(rects[..i]), g), rects[i], g, Point(rects[i].left, rects[i].top)) ==
            Patched(f, UnionOf(rects[..i + 1]), g)
  {
    hide UnionOf;
    UnionOfNext(rects, i);
    assert forall p :: Plus(Minus(p, rects[i].TopLeft()), Point(rects[i].left, rects[i].top)) == p;
  }

  lemma RectsInside(rects: seq<Rect>, s: Region, r: Rect)
    requires IsRectVector(rects, s) && s <= Pixels(r)
    ensures forall i :: 0 <= i < |rects| ==> Inside(rects[i], r) && !rects[i].IsEmpty()
  {
    forall i | 0 <= i < |rects| ensures Inside(rects[i], r) {
      var q := rects[i];
      assert q.TopLeft() in s by {
        assert q.Contains(q.TopLeft());
      }
      assert Point(q.right - 1, q.bottom - 1) in s by {
        assert q.Contains(Point(q.right - 1, q.bottom - 1));
      }
    }
  }

  datatype Outcome = Done | GrabFailed | ShapesDiffer

  /** The regions that are compared. */
  function Checked(c: UpdateContainer): Region {
    c.changedRegion + c.copiedRegion + c.videoRegion
  }

  /** The region `d` is what the comparison of `f` with `g` finds in `s`. */
  ghost predicate Finds(f: Frame, g: Frame, s: Region, d: Region) {
    Collected(f, g, GetRectVector(s), d)
  }

  /** It has every difference and nothing unchecked, and where there is no
      difference it is empty. */
  lemma FindsDiff(f: Frame, g: Frame, s: Region, d: Region)
    requires Finds(f, g, s, d)
    ensures Diff(f, g, s) <= d <= s
    ensures d == {} <==> Diff(f, g, s) == {}
  {
    hide GetRectVector, Collected, Diff;
    RectVectorLists(s);
    UnionOfRectVector(GetRectVector(s), s);
    CollectedCovers(f, g, GetRectVector(s), d);
    NothingCollectedIff(f, g, GetRectVector(s), d);
  }

  /** Equal pictures give nothing to report. */
  lemma FindsNothing(f: Frame, g: Frame, s: Region)
    requires forall p :: p in s ==> !Differs(f, g, p)
    ensures Finds(f, g, s, {})
  {
    hide GetRectVector, Differs;
    RectVectorLists(s);
    UnionOfRectVector(GetRectVector(s), s);
    CollectsNothing(f, g, GetRectVector(s));
  }

  /** Every pixel of it lies in the smallest box around the differing pixels of a
      rectangle that lies in one of the region's, starts with a differing row, is
      at most 32 rows high, and differs in each 32 columns from its left. */
  lemma FindsBoxes(f: Frame, g: Frame, s: Region, d: Region, p: Point) returns (k: nat, r: Rect, box: Rect)
    requires Finds(f, g, s, d) && p in d
    ensures k < |GetRectVector(s)| && Inside(r, GetRectVector(s)[k]) && FirstRowDiffers(f, g, r)
    ensures IsTight(f, g, r, box) && box.Contains(p) && Pixels(box) <= d
    ensures r.bottom - r.top <= 32
    ensures forall n: nat :: r.left + 32 * n < r.right ==>
              exists q: Point ::
                r.left + 32 * n <= q.x < Min(r.left + 32 * n + 32, r.right) && r.top <= q.y < r.bottom &&
                Differs(f, g, q)
  {
    hide GetRectVector, Collected, IsTight, FirstRowDiffers;
    k, r, box := CollectedPixel(f, g, GetRectVector(s), d, p);
  }

  /** What a finished filter run did: `before` and `after` are the backup
      pictures, `screen` is the grabbed one. */
  ghost predicate Synchronized(c: UpdateContainer, c': UpdateContainer, rects: seq<Rect>,
                               before: Frame, screen: Frame, after: Frame) {
    var moved := MovedAll(before, rects, c.copySrc);
    && c' == c.(changedRegion := c'.changedRegion)
    && Finds(moved, screen, Checked(c), c'.changedRegion)
    && after == Patched(moved, c'.changedRegion, screen)
  }

  /** What the filter did with the container `c`: nothing when the shapes
      differ, only the moves when the grab failed, and else the backup is
      synchronized with the work buffer, which shows the display where it was
      checked. */
  ghost predicate PassedFilter(c: UpdateContainer, c': UpdateContainer, rects: seq<Rect>, outcome: Outcome,
                               before: Frame, screen: Frame, after: Frame, display: Frame) {
    && rects == GetRectVector(c.copiedRegion)
    && (outcome != Done ==> c' == c)
    && ChangedOnlyIn(before, after, c'.Dirty())
    && match outcome
       case ShapesDiffer => after == before
       case GrabFailed => after == MovedAll(before, rects, c.copySrc)
       case Done => Synchronized(c, c', rects, before, screen, after) && Shows(screen, Checked(c), display)
  }

  /** Moves change nothing outside their rectangles. */
  lemma {:induction false} MovesStayInside(f: Frame, rects: seq<Rect>, src: Point, p: Point)
    requires p in f && p !in UnionOf(rects)
    ensures MovedAll(f, rects, src)[p] == f[p]
  {
    if rects != [] {
      MovesStayInside(f, rects[..|rects| - 1], src, p);
    }
  }

  lemma UnchangedIsInside(f: Frame, region: Region)
    ensures ChangedOnlyIn(f, f, region)
  {
  }

  lemma MovedThenPatched(before: Frame, c: UpdateContainer, rects: seq<Rect>, changed: Region, screen: Frame)
    requires IsRectVector(rects, c.copiedRegion) && changed <= c.Dirty()
    ensures ChangedOnlyIn(before, Patched(MovedAll(before, rects, c.copySrc), changed, screen), c.Dirty())
    ensures changed == {} ==>
            Patched(MovedAll(before, rects, c.copySrc), changed, screen) == MovedAll(before, rects, c.copySrc)
  {
    hide MovedAll, IsRectVector, UnionOf;
    UnionOfRectVector(rects, c.copiedRegion);
    forall p | p in before && p !in c.Dirty()
      ensures Patched(MovedAll(before, rects, c.copySrc), changed, screen)[p] == before[p]
    {
      MovesStayInside(before, rects, c.copySrc, p);
    }
  }

  /** The filter refines the simple diff: afterwards the backup equals the
      screen wherever it was told to look and is untouched elsewhere, and the
      reported region has every difference and nothing unchecked, whatever the
      copy source was. */
  lemma FilterSynchronizes(c: UpdateContainer, c': UpdateContainer, rects: seq<Rect>,
                           before: Frame, screen: Frame, after: Frame)
    requires Synchronized(c, c', rects, before, screen, after) && IsRectVector(rects, c.copiedRegion)
    requires before.Keys == screen.Keys
    ensures after.Keys == before.Keys
    ensures forall p :: p in before && p in Checked(c) ==> after[p] == screen[p]
    ensures forall p :: p in before && p !in Checked(c) ==> after[p] == before[p]
    ensures forall p :: p in before && after[p] != before[p] ==> p in c'.changedRegion || p in c.copiedRegion
    ensures Diff(MovedAll(before, rects, c.copySrc), screen, Checked(c)) <= c'.changedRegion <= Checked(c)
  {
    hide Finds;
    var moved := MovedAll(before, rects, c.copySrc);
    FindsDiff(moved, screen, Checked(c), c'.changedRegion);
    UnionOfRectVector(rects, c.copiedRegion);
    forall p | p in before
      ensures p in Checked(c) ==> after[p] == screen[p]
      ensures p !in c'.changedRegion && p !in c.copiedRegion ==> after[p] == before[p]
    {
      if p in Checked(c) && p !in c'.changedRegion {
        assert p !in Diff(moved, screen, Checked(c));
      }
      if p !in c.copiedRegion {
        MovesStayInside(before, rects, c.copySrc, p);
      }
    }
  }

  class UpdateFilter {
    var driver: ScreenDriver
    var frameBuffer: FrameBuffer
    var grabOptimizator: GrabOptimizator

    constructor (driver: ScreenDriver, frameBuffer: FrameBuffer)
      ensures this.driver == driver && this.frameBuffer == frameBuffer
      ensures fresh(grabOptimizator) && grabOptimizator.Valid()
    {
      this.driver, this.frameBuffer := driver, frameBuffer;
      grabOptimizator := new GrabOptimizator();
    }

    /** The two buffers that are compared have the same shape. */
    ghost predicate Matching()
      reads this, driver, driver.screen, frameBuffer
    {
      && frameBuffer.Valid() && driver.screen.Valid() && driver.screen.IsEqualTo(frameBuffer)
    }

    /** memcmp of `len` bytes from offset `ptr` on: part of a row. */
    method CompareRow(ptr: int, len: int, ghost y: int, ghost l: int, ghost r: int) returns (differ: bool)
      requires Matching()
      requires 0 <= y < frameBuffer.dim.height && 0 <= l <= r <= frameBuffer.dim.width
      requires ptr == (y * frameBuffer.dim.width + l) * frameBuffer.pf.BytesPerPixel()
      requires len == (r - l) * frameBuffer.pf.BytesPerPixel()
      ensures differ <==> RowDiffers(frameBuffer.Content(), driver.screen.Content(), y, l, r)
    {
      hide ContentOf, Dimension.Area, SameRow, RowDiffers;
      ghost var bpp := frameBuffer.pf.BytesPerPixel();
      RowCompared(frameBuffer.buffer[..], frameBuffer.dim, driver.screen.buffer[..], frameBuffer.dim, bpp, y, l, r - l,
                  y, l);
      CompareIsDiffers(frameBuffer.Content(), driver.screen.Content(), y, l, r);
      differ := frameBuffer.buffer[ptr..ptr + len] != driver.screen.buffer[ptr..ptr + len];
    }

    ghost function Old(): seq<byte>
      reads this, frameBuffer, frameBuffer.buffer
    {
      frameBuffer.buffer[..]
    }

    ghost function New(): seq<byte>
      reads this, driver, driver.screen, driver.screen.buffer
    {
      driver.screen.buffer[..]
    }

    /** The two searches over the bytes of one row: the first differing byte
        may lower the left bound, the last one may raise the right bound. */
    method ScanRow(ptr: int, len: int, leftDelta: int, rightDelta: int) returns (left: int, right: int)
      requires Matching() && 0 <= ptr && 0 < len && ptr + len <= frameBuffer.buffer.Length
      requires 0 <= leftDelta < len && 0 <= rightDelta < len
      ensures 0 <= left <= leftDelta && rightDelta <= right < len
      ensures forall i :: 0 <= i < len - 1 && ByteDiffers(Old(), New(), ptr, i) ==> left <= i
      ensures forall i :: 0 < i < len && ByteDiffers(Old(), New(), ptr, i) ==> i <= right
      ensures left == leftDelta || ByteDiffers(Old(), New(), ptr, left)
      ensures right == rightDelta || ByteDiffers(Old(), New(), ptr, right)
    {
      left, right := leftDelta, rightDelta;
      var i := 0;
      while i < len - 1
        invariant 0 <= i <= len - 1
        invariant left == leftDelta
        invariant forall k :: 0 <= k < i ==> !ByteDiffers(Old(), New(), ptr, k)
      {
        if driver.screen.buffer[ptr + i] != frameBuffer.buffer[ptr + i] {
          assert ByteDiffers(Old(), New(), ptr, i);
          if i < left {
            left := i;
          }
          break;
        }
        i := i + 1;
      }
      i := len - 1;
      while i > 0
        invariant 0 <= i <= len - 1
        invariant right == rightDelta
        invariant forall k :: i < k < len ==> !ByteDiffers(Old(), New(), ptr, k)
      {
        if driver.screen.buffer[ptr + i] != frameBuffer.buffer[ptr + i] {
          assert ByteDiffers(Old(), New(), ptr, i);
          if i > right {
            right := i;
          }
          break;
        }
        i := i - 1;
      }
    }

    /** Exclude unchanged lines at the bottom. */
    method TrimBottom(rect: Rect) returns (bottom: int)
      requires Matching() && Inside(rect, frameBuffer.dim.GetRect()) && !rect.IsEmpty()
      requires FirstRowDiffers(frameBuffer.Content(), driver.screen.Content(), rect)
      ensures rect.top < bottom <= rect.bottom
      ensures RowDiffers(frameBuffer.Content(), driver.screen.Content(), bottom - 1, rect.left, rect.right)
      ensures RowsEqual(frameBuffer.Content(), driver.screen.Content(), bottom, rect.bottom, rect.left, rect.right)
    {
      hide RowDiffers, FrameBuffer.Content, Dimension.Area;
      var bpp := frameBuffer.pf.BytesPerPixel();
      var bytesPerRow, bytesInRow := frameBuffer.dim.width * bpp, rect.Width() * bpp;
      var ptr := (rect.bottom - 1) * bytesPerRow + bpp * rect.left;
      OffsetOf(rect.bottom - 1, frameBuffer.dim.width, rect.left, bpp);
      bottom := rect.top + 1;
      var y := rect.bottom - 1;
      while y > rect.top
        invariant rect.top <= y < rect.bottom && bottom == rect.top + 1
        invariant ptr == (y * frameBuffer.dim.width + rect.left) * bpp
        invariant RowsEqual(frameBuffer.Content(), driver.screen.Content(), y + 1, rect.bottom, rect.left, rect.right)
      {
        var differ := CompareRow(ptr, bytesInRow, y, rect.left, rect.right);
        if differ {
          bottom := y + 1;
          break;
        }
        NextOffset(y - 1, frameBuffer.dim.width, rect.left, bpp);
        ptr, y := ptr - bytesPerRow, y - 1;
      }
    }

    /** Find the outermost differing bytes of the rows of `rect`. */
    method TrimColumns(rect: Rect) returns (left: int, right: int)
      requires Matching() && Inside(rect, frameBuffer.dim.GetRect()) && !rect.IsEmpty()
      requires FirstRowDiffers(frameBuffer.Content(), driver.screen.Content(), rect)
      ensures var dim, bpp := frameBuffer.dim, frameBuffer.pf.BytesPerPixel();
              && 0 <= left && 0 <= right
              && Enclosed(Old(), New(), dim, bpp, rect.left, rect.Width() * bpp, rect.top, rect.bottom, left, right)
              && Reached(Old(), New(), dim, bpp, rect.left, rect.Width() * bpp, rect.top, rect.bottom, left)
              && Reached(Old(), New(), dim, bpp, rect.left, rect.Width() * bpp, rect.top, rect.bottom, right)
    {
      hide ContentOf, ByteDiffers, Dimension.Area, RowDiffers;
      var dim, bpp := frameBuffer.dim, frameBuffer.pf.BytesPerPixel();
      var bytesPerRow, len := dim.width * bpp, rect.Width() * bpp;
      MulMonotone(1, rect.Width(), bpp);
      var ptr := rect.top * bytesPerRow + bpp * rect.left;
      OffsetOf(rect.top, dim.width, rect.left, bpp);
      left, right := len - 1, 0;
      var y := rect.top;
      while y < rect.bottom
        invariant rect.top <= y <= rect.bottom
        invariant ptr == (y * dim.width + rect.left) * bpp
        invariant 0 <= left < len && 0 <= right < len
        invariant Enclosed(Old(), New(), dim, bpp, rect.left, len, rect.top, y, left, right)
        invariant left == len - 1 || Reached(Old(), New(), dim, bpp, rect.left, len, rect.top, y, left)
        invariant right == 0 || Reached(Old(), New(), dim, bpp, rect.left, len, rect.top, y, right)
      {
        BlockInside(dim, bpp, y, rect.left, rect.Width());
        var l, r := ScanRow(ptr, len, left, right);
        NextRowEnclosed(Old(), New(), dim, bpp, rect.left, len, rect.top, y, left, right, l, r);
        left, right := l, r;
        NextOffset(y, dim.width, rect.left, bpp);
        ptr, y := ptr + bytesPerRow, y + 1;
      }
      FirstRowByte(Old(), New(), dim, bpp, rect);
    }

    method UpdateChangedSubRect(rgn: Region, rect: Rect) returns (rgn': Region, ghost box: Rect)
      requires Matching() && Inside(rect, frameBuffer.dim.GetRect()) && !rect.IsEmpty()
      requires FirstRowDiffers(frameBuffer.Content(), driver.screen.Content(), rect)
      ensures IsTight(frameBuffer.Content(), driver.screen.Content(), rect, box) && rgn' == rgn + Pixels(box)
      ensures forall b :: IsTight(frameBuffer.Content(), driver.screen.Content(), rect, b) ==> rgn' == rgn + Pixels(b)
    {
      hide ContentOf, RowDiffers, RowsEqual, IsTight, Enclosed, Reached, Dimension.Area;
      var bpp := frameBuffer.pf.BytesPerPixel();
      var finalRect := rect;
      var bottom := TrimBottom(rect);
      finalRect := finalRect.(bottom := bottom);
      var left, right := TrimColumns(finalRect);
      TrimmedIsTight(Old(), New(), frameBuffer.dim, bpp, rect, bottom, left, right);
      finalRect := finalRect.(right := finalRect.left + right / bpp + 1);
      finalRect := finalRect.(left := finalRect.left + left / bpp);
      box := finalRect;
      rgn' := rgn + Pixels(finalRect);
      forall b | IsTight(frameBuffer.Content(), driver.screen.Content(), rect, b) ensures b == box {
        TightIsUnique(frameBuffer.Content(), driver.screen.Content(), rect, b, box);
      }
    }

    /** Scan one block down to its first differing row. */
    method ScanBlock(ptr: int, len: int, top: int, bottom: int, ghost left: int, ghost right: int) returns (ay: int)
      requires Matching() && Inside(Rect(left, top, right, bottom), frameBuffer.dim.GetRect())
      requires ptr == (top * frameBuffer.dim.width + left) * frameBuffer.pf.BytesPerPixel()
      requires len == (right - left) * frameBuffer.pf.BytesPerPixel()
      ensures top <= ay <= bottom
      ensures RowsEqual(frameBuffer.Content(), driver.screen.Content(), top, ay, left, right)
      ensures ay < bottom ==> RowDiffers(frameBuffer.Content(), driver.screen.Content(), ay, left, right)
    {
      hide RowDiffers, FrameBuffer.Content, Dimension.Area;
      var bpp := frameBuffer.pf.BytesPerPixel();
      var bytesPerRow := frameBuffer.dim.width * bpp;
      var blockPtr := ptr;
      ay := top;
      while ay < bottom
        invariant top <= ay <= bottom
        invariant blockPtr == (ay * frameBuffer.dim.width + left) * bpp
        invariant RowsEqual(frameBuffer.Content(), driver.screen.Content(), top, ay, left, right)
      {
        var differ := CompareRow(blockPtr, len, ay, left, right);
        if differ {
          break;
        }
        NextOffset(ay, frameBuffer.dim.width, left, bpp);
        blockPtr, ay := blockPtr + bytesPerRow, ay + 1;
      }
    }

    /** Scan one row of blocks, joining neighbouring changed blocks. */
    method ScanBlockRow(rgn: Region, rect: Rect, y: int, blockBottom: int, ptr: int)
      returns (rgn': Region, ghost passed: seq<Rect>, ghost boxes: seq<Rect>)
      requires Matching() && Inside(rect, frameBuffer.dim.GetRect()) && !rect.IsEmpty()
      requires rect.top <= y < blockBottom <= rect.bottom && blockBottom <= y + BLOCK_SIZE
      requires ptr == (y * frameBuffer.dim.width + rect.left) * frameBuffer.pf.BytesPerPixel()
      ensures Filtered(frameBuffer.Content(), driver.screen.Content(),
                       Rect(rect.left, y, rect.right, blockBottom), rgn, rgn', passed, boxes)
    {
      hide FrameBuffer.Content, RowDiffers, RowsEqual, Filtered, Differs, Dimension.Area, IsTight, Diff, Pixels,
           IsJoined;
      ghost var f, g := frameBuffer.Content(), driver.screen.Content();
      var bpp := frameBuffer.pf.BytesPerPixel();
      var rowPtr := ptr;
      ghost var n: nat := 0;   // the number of joined blocks
      var newLeft, newTop := -1, 0;
      rgn', passed, boxes := rgn, [], [];
      FilteredNothing(f, g, Rect(rect.left, y, rect.left, blockBottom), rgn);
      var x := rect.left;
      ghost var done := x;   // the columns before `done` have been scanned
      while x < rect.right
        invariant rect.left <= done == Min(x, rect.right)
        invariant rowPtr == (y * frameBuffer.dim.width + done) * bpp
        invariant newLeft == -1 || rect.left <= newLeft < done
        invariant Filtered(f, g, Rect(rect.left, y, if newLeft == -1 then done else newLeft, blockBottom),
                           rgn, rgn', passed, boxes)
        invariant newLeft != -1 ==> y <= newTop < blockBottom && RowDiffers(f, g, newTop, newLeft, done)
        invariant newLeft != -1 ==> RowsEqual(f, g, y, newTop, newLeft, done)
        invariant newLeft != -1 ==>
                    x == newLeft + BLOCK_SIZE * n && IsJoined(f, g, Rect(newLeft, newTop, done, blockBottom))
        invariant EndBefore(passed, if newLeft == -1 then done else newLeft)
      {
        var blockRight := Min(x + BLOCK_SIZE, rect.right);
        var bytesPerBlockRow := (blockRight - x) * bpp;
        var ay := ScanBlock(rowPtr, bytesPerBlockRow, y, blockBottom, x, blockRight);
        if ay < blockBottom {
          if newLeft == -1 {
            newLeft, newTop, n := x, ay, 0;
            SmallIsJoined(f, g, Rect(x, ay, blockRight, blockBottom));
          } else {
            JoinBlock(f, g, y, newLeft, x, blockRight, newTop, ay);
            BlockJoined(f, g, Rect(newLeft, newTop, x, blockBottom), n, blockRight, ay);
            if ay < newTop {
              newTop := ay;
            }
          }
        } else {
          if newLeft != -1 {
            var newRect := Rect(newLeft, newTop, x, blockBottom);
            ghost var box;
            ghost var before := rgn';
            rgn', box := UpdateChangedSubRect(rgn', newRect);
            AddJoined(f, g, rect.left, y, newRect, rgn, before, passed, boxes, box);
            passed, boxes := passed + [newRect], boxes + [box];
            newLeft := -1;
          }
          SkipBlock(f, g, rect.left, x, blockRight, y, blockBottom, rgn, rgn', passed, boxes);
        }
        Distribute(y * frameBuffer.dim.width + x, blockRight - x, bpp);
        rowPtr := rowPtr + bytesPerBlockRow;
        x, done, n := x + BLOCK_SIZE, blockRight, n + 1;
      }
      if newLeft != -1 {
        var newRect := Rect(newLeft, newTop, rect.right, blockBottom);
        ghost var box;
        ghost var before := rgn';
        rgn', box := UpdateChangedSubRect(rgn', newRect);
        AddJoined(f, g, rect.left, y, newRect, rgn, before, passed, boxes, box);
        passed, boxes := passed + [newRect], boxes + [box];
      }
    }

    method UpdateChangedRect(rgn: Region, rect: Rect)
      returns (rgn': Region, ghost passed: seq<Rect>, ghost boxes: seq<Rect>)
      requires Matching() && Inside(rect, frameBuffer.dim.GetRect()) && !rect.IsEmpty()
      requires FirstRowDiffers(frameBuffer.Content(), driver.screen.Content(), rect)
      ensures Filtered(frameBuffer.Content(), driver.screen.Content(), rect, rgn, rgn', passed, boxes)
      ensures rgn + Diff(frameBuffer.Content(), driver.screen.Content(), Pixels(rect)) <= rgn' <= rgn + Pixels(rect)
    {
      hide FrameBuffer.Content, RowDiffers, Filtered, Differs, Dimension.Area, IsTight, Diff, Pixels,
           IsJoined;
      ghost var f, g := frameBuffer.Content(), driver.screen.Content();
      // Small rectangles go directly to the trimming.
      if rect.Width() <= BLOCK_SIZE && rect.Height() <= BLOCK_SIZE {
        ghost var box;
        rgn', box := UpdateChangedSubRect(rgn, rect);
        SmallIsJoined(f, g, rect);
        FilteredOne(f, g, rect, rgn, box);
        FilteredCovers(f, g, rect, rgn, rgn', [rect], [box]);
        return rgn', [rect], [box];
      }
      var bpp := frameBuffer.pf.BytesPerPixel();
      var bytesPerRow := frameBuffer.dim.width * bpp;
      var topLeftPtr := rect.top * bytesPerRow + bpp * rect.left;
      OffsetOf(rect.top, frameBuffer.dim.width, rect.left, bpp);
      rgn', passed, boxes := rgn, [], [];
      FilteredNothing(f, g, rect.(bottom := rect.top), rgn);
      var y := rect.top;
      ghost var done := y;
      while y < rect.bottom
        invariant rect.top <= done == Min(y, rect.bottom)
        invariant topLeftPtr == (y * frameBuffer.dim.width + rect.left) * bpp
        invariant Filtered(f, g, rect.(bottom := done), rgn, rgn', passed, boxes)
      {
        var blockBottom := Min(y + BLOCK_SIZE, rect.bottom);
        ghost var before, p, b := rgn', [], [];
        rgn', p, b := ScanBlockRow(rgn', rect, y, blockBottom, topLeftPtr);
        FilteredAppend(f, g, rect.(bottom := y), Rect(rect.left, y, rect.right, blockBottom),
                       rect.(bottom := blockBottom), rgn, before, rgn', passed, boxes, p, b);
        passed, boxes := passed + p, boxes + b;
        RowsFurther(y, BLOCK_SIZE, frameBuffer.dim.width, rect.left, bpp);
        topLeftPtr := topLeftPtr + bytesPerRow * BLOCK_SIZE;
        y, done := y + BLOCK_SIZE, blockBottom;
      }
      FilteredCovers(f, g, rect, rgn, rgn', passed, boxes);
    }

    method GetChangedRegion(rgn: Region, rect: Rect)
      returns (rgn': Region, ghost passed: seq<Rect>, ghost boxes: seq<Rect>)
      requires Matching() && Inside(rect, frameBuffer.dim.GetRect()) && !rect.IsEmpty()
      ensures Filtered(frameBuffer.Content(), driver.screen.Content(), rect, rgn, rgn', passed, boxes)
      ensures rgn + Diff(frameBuffer.Content(), driver.screen.Content(), Pixels(rect)) <= rgn' <= rgn + Pixels(rect)
    {
      hide FrameBuffer.Content, RowDiffers, RowsEqual, Filtered, Differs, Dimension.Area, IsTight, Diff, Pixels,
           IsJoined;
      var bpp := frameBuffer.pf.BytesPerPixel();
      var bytesPerScanline, bytesPerRow := rect.Width() * bpp, frameBuffer.dim.width * bpp;
      var ptr := rect.top * bytesPerRow + bpp * rect.left;
      OffsetOf(rect.top, frameBuffer.dim.width, rect.left, bpp);
      if rect.Width() <= BLOCK_SIZE && rect.Height() <= BLOCK_SIZE {
        rgn', passed, boxes := ScanSmall(rgn, rect, ptr, bytesPerScanline, bytesPerRow);
      } else {
        rgn', passed, boxes := ScanLines(rgn, rect, ptr, bytesPerScanline, bytesPerRow);
      }
      FilteredCovers(frameBuffer.Content(), driver.screen.Content(), rect, rgn, rgn', passed, boxes);
    }

    /** `getChangedRegion` on a rectangle of one block. */
    method ScanSmall(rgn: Region, rect: Rect, start: int, bytesPerScanline: int, bytesPerRow: int)
      returns (rgn': Region, ghost passed: seq<Rect>, ghost boxes: seq<Rect>)
      requires Matching() && Inside(rect, frameBuffer.dim.GetRect()) && !rect.IsEmpty()
      requires start == (rect.top * frameBuffer.dim.width + rect.left) * frameBuffer.pf.BytesPerPixel()
      requires bytesPerScanline == rect.Width() * frameBuffer.pf.BytesPerPixel()
      requires bytesPerRow == frameBuffer.dim.width * frameBuffer.pf.BytesPerPixel()
      requires rect.Width() <= BLOCK_SIZE && rect.Height() <= BLOCK_SIZE
      ensures Filtered(frameBuffer.Content(), driver.screen.Content(), rect, rgn, rgn', passed, boxes)
    {
      hide FrameBuffer.Content, RowDiffers, RowsEqual, Filtered, Differs, Dimension.Area, IsTight, Diff, Pixels,
           IsJoined;
      ghost var f, g := frameBuffer.Content(), driver.screen.Content();
      rgn', passed, boxes := rgn, [], [];
      var ptr, y := start, rect.top;
      RowsEqualNone(f, g, rect);
      while y < rect.bottom
        invariant rect.top <= y <= rect.bottom
        invariant ptr == (y * frameBuffer.dim.width + rect.left) * frameBuffer.pf.BytesPerPixel()
        invariant RowsEqual(f, g, rect.top, y, rect.left, rect.right)
      {
        var differ := CompareRow(ptr, bytesPerScanline, y, rect.left, rect.right);
        if differ {
          ghost var box;
          rgn', box := UpdateChangedSubRect(rgn, rect.(top := y));
          AddBelowEqual(f, g, rect, y, rgn, box);
          return rgn', [rect.(top := y)], [box];
        }
        RowsEqualNext(f, g, rect, y);
        NextOffset(y, frameBuffer.dim.width, rect.left, frameBuffer.pf.BytesPerPixel());
        ptr, y := ptr + bytesPerRow, y + 1;
      }
      AllRowsEqual(f, g, rect, rgn);
    }

    /** `getChangedRegion` on a bigger rectangle: after a differing line the
        next fifteen are not compared but taken along. */
    method ScanLines(rgn: Region, rect: Rect, start: int, bytesPerScanline: int, bytesPerRow: int)
      returns (rgn': Region, ghost passed: seq<Rect>, ghost boxes: seq<Rect>)
      requires Matching() && Inside(rect, frameBuffer.dim.GetRect()) && !rect.IsEmpty()
      requires start == (rect.top * frameBuffer.dim.width + rect.left) * frameBuffer.pf.BytesPerPixel()
      requires bytesPerScanline == rect.Width() * frameBuffer.pf.BytesPerPixel()
      requires bytesPerRow == frameBuffer.dim.width * frameBuffer.pf.BytesPerPixel()
      ensures Filtered(frameBuffer.Content(), driver.screen.Content(), rect, rgn, rgn', passed, boxes)
    {
      hide FrameBuffer.Content, RowDiffers, Filtered, Differs, Dimension.Area, IsTight, Diff, Pixels,
           IsJoined;
      ghost var f, g := frameBuffer.Content(), driver.screen.Content();
      ghost var bpp := frameBuffer.pf.BytesPerPixel();
      rgn', passed, boxes := rgn, [], [];
      FilteredNothing(f, g, rect.(bottom := rect.top), rgn);
      var newTop := -1;
      var ptr, y := start, rect.top;
      while y < rect.bottom
        invariant rect.top <= y
        invariant ptr == (y * frameBuffer.dim.width + rect.left) * bpp
        invariant newTop == -1 || rect.top <= newTop < Min(y, rect.bottom)
        invariant newTop == -1 ==> y <= rect.bottom
        invariant Filtered(f, g, rect.(bottom := if newTop == -1 then y else newTop), rgn, rgn', passed, boxes)
        invariant newTop != -1 ==> RowDiffers(f, g, newTop, rect.left, rect.right)
      {
        var differ := CompareRow(ptr, bytesPerScanline, y, rect.left, rect.right);
        if differ {
          if newTop == -1 {
            newTop := y;
          }
          // One differing line stands for the next fifteen.
          var n := BLOCK_SIZE / 2 - 1;
          RowsFurther(y, n, frameBuffer.dim.width, rect.left, bpp);
          y, ptr := y + n, ptr + n * bytesPerRow;
        } else {
          if newTop != -1 {
            ghost var before, p, b := rgn', [], [];
            rgn', p, b := UpdateChangedRect(rgn', Rect(rect.left, newTop, rect.right, y));
            FilteredAppend(f, g, rect.(bottom := newTop), Rect(rect.left, newTop, rect.right, y), rect.(bottom := y),
                           rgn, before, rgn', passed, boxes, p, b);
            passed, boxes := passed + p, boxes + b;
            newTop := -1;
          }
          SkipRow(f, g, rect, y, rgn, rgn', passed, boxes);
        }
        NextOffset(y, frameBuffer.dim.width, rect.left, bpp);
        y, ptr := y + 1, ptr + bytesPerRow;
      }
      if newTop != -1 {
        ghost var before, p, b := rgn', [], [];
        rgn', p, b := UpdateChangedRect(rgn', Rect(rect.left, newTop, rect.right, rect.bottom));
        FilteredAppend(f, g, rect.(bottom := newTop), rect.(top := newTop), rect, rgn, before, rgn', passed, boxes, p,
                       b);
        passed, boxes := passed + p, boxes + b;
      }
    }

    ghost predicate Valid()
      reads this, driver, driver.screen, driver.desktop, frameBuffer, grabOptimizator
    {
      && driver.Valid() && frameBuffer.Valid() && grabOptimizator.Valid()
      && frameBuffer.buffer != driver.screen.buffer && frameBuffer.buffer != driver.desktop.buffer
    }

    /** Repeat the copies that the screen made. */
    method ReproduceCopies(rects: seq<Rect>, src: Point)
      requires frameBuffer.Valid()
      modifies frameBuffer.buffer
      ensures frameBuffer.Content() == MovedAll(old(frameBuffer.Content()), rects, src)
    {
      hide FrameBuffer.Content, Copied;
      ghost var start := frameBuffer.Content();
      for i := 0 to |rects|
        invariant frameBuffer.Content() == MovedAll(start, rects[..i], src)
      {
        assert rects[..i + 1][..i] == rects[..i];
        frameBuffer.Move(rects[i], src.x, src.y);
      }
      assert rects[..|rects|] == rects;
    }

    /** Collect the changes of all rectangles. */
    method CollectChanges(rects: seq<Rect>) returns (rgn: Region)
      requires Matching()
      requires forall i :: 0 <= i < |rects| ==> Inside(rects[i], frameBuffer.dim.GetRect()) && !rects[i].IsEmpty()
      ensures Collected(frameBuffer.Content(), driver.screen.Content(), rects, rgn)
    {
      hide FrameBuffer.Content, Diff, Dimension.Area, Filtered;
      ghost var f, g := frameBuffer.Content(), driver.screen.Content();
      rgn := {};
      for i := 0 to |rects|
        invariant Collected(f, g, rects[..i], rgn)
      {
        ghost var passed, boxes;
        ghost var before := rgn;
        rgn, passed, boxes := GetChangedRegion(rgn, rects[i]);
        CollectedNext(f, g, rects, i, before, rgn, passed, boxes);
      }
      assert rects[..|rects|] == rects;
    }

    /** The backup takes over what the comparison found. */
    method SyncChanged(rects: seq<Rect>)
      requires Matching() && frameBuffer.buffer != driver.screen.buffer
      modifies frameBuffer.buffer
      ensures frameBuffer.Content() == Patched(old(frameBuffer.Content()), UnionOf(rects), driver.screen.Content())
    {
      hide FrameBuffer.Content, Copied, Patched, UnionOf;
      ghost var f := frameBuffer.Content();
      UnionOfNone();
      PatchedNothing(f, driver.screen.Content());
      for i := 0 to |rects|
        invariant frameBuffer.Content() == Patched(f, UnionOf(rects[..i]), driver.screen.Content())
      {
        PatchedMore(f, rects, i, driver.screen.Content());
        var ok := frameBuffer.CopyFrom(rects[i], driver.screen, rects[i].left, rects[i].top);
      }
      assert rects[..|rects|] == rects;
    }

    /** `filter`.  It does nothing when the shapes differ, and stops after the
        copies when the grab fails. */
    method Filter(c: UpdateContainer) returns (c': UpdateContainer, outcome: Outcome, ghost rects: seq<Rect>)
      requires Valid() && (Matching() ==> Checked(c) <= Pixels(frameBuffer.dim.GetRect()))
      modifies frameBuffer.buffer, driver.screen.buffer, grabOptimizator
      ensures Valid() && (outcome == ShapesDiffer <==> !Matching())
      ensures c' == if outcome == Done then c.(changedRegion := c'.changedRegion) else c
      ensures PassedFilter(c, c', rects, outcome, old(frameBuffer.Content()), driver.screen.Content(),
                           frameBuffer.Content(), driver.desktop.Content())
      ensures outcome == Done ==>
                OnlyRefreshed(old(driver.screen.Content()), driver.screen.Content(), driver.desktop.Content())
    {
      hide FrameBuffer.Content, Dimension.Area, MovedAll, Patched, Diff, Shows, OnlyRefreshed, IsRectVector, UnionOf,
           Pixels, ChangedOnlyIn;
      UnchangedIsInside(frameBuffer.Content(), c.Dirty());
      c', outcome := c, ShapesDiffer;
      var list := GetRectVector(c.copiedRegion);
      rects := list;
      if !driver.screen.IsEqualTo(frameBuffer) {
        return;
      }
      var toCheck := c.changedRegion;
      toCheck := toCheck + c.copiedRegion;
      toCheck := toCheck + c.videoRegion;
      ReproduceCopies(list, c.copySrc);
      var grabbed, changed := GrabAndCompare(toCheck);
      if grabbed {
        c', outcome := c.(changedRegion := changed), Done;
      } else {
        outcome := GrabFailed;
      }
      MovedThenPatched(old(frameBuffer.Content()), c', rects, if grabbed then changed else {}, driver.screen.Content());
    }

    /** The second half of `filter`: grab, compare and bring the backup up to date. */
    method GrabAndCompare(toCheck: Region) returns (grabbed: bool, changed: Region)
      requires Valid() && Matching() && toCheck <= Pixels(frameBuffer.dim.GetRect())
      modifies frameBuffer.buffer, driver.screen.buffer, grabOptimizator
      ensures Valid() && Matching()
      ensures !grabbed ==> frameBuffer.Content() == old(frameBuffer.Content())
      ensures grabbed ==>
                && Finds(old(frameBuffer.Content()), driver.screen.Content(), toCheck, changed)
                && frameBuffer.Content() == Patched(old(frameBuffer.Content()), changed, driver.screen.Content())
                && Shows(driver.screen.Content(), toCheck, driver.desktop.Content())
                && OnlyRefreshed(old(driver.screen.Content()), driver.screen.Content(), driver.desktop.Content())
    {
      hide FrameBuffer.Content, Dimension.Area, Patched, Diff, Shows, OnlyRefreshed, IsRectVector, UnionOf, Pixels,
           Planned, CarriedOut, GrabOptimizator.Valid, ChangedOnlyIn, FrameBuffer.Valid, IsRect, GetRectVector;
      var list := GetRectVector(toCheck);
      RectVectorLists(toCheck);
      UnionOfRectVector(list, toCheck);
      RectsInside(list, toCheck, frameBuffer.dim.GetRect());
      changed := {};
      var ok, _, _, _, _, _ := grabOptimizator.Grab(toCheck, driver);
      grabbed := ok;
      if grabbed {
        changed := CollectChanges(list);
        list := GetRectVector(changed);
        RectVectorLists(changed);
        UnionOfRectVector(list, changed);
        SyncChanged(list);
      }
    }
  }
}
