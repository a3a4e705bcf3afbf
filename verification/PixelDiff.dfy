/** The pixel-by-pixel difference of two pictures: the reference the update
    filter is measured against. */
module PixelDiffs {
  import opened Geometry
  import opened Frames

  predicate Differs(f: Frame, g: Frame, p: Point) {
    p in f && p in g && f[p] != g[p]
  }

  /** The simple diff: every pixel of `s` that differs. */
  function Diff(f: Frame, g: Frame, s: Region): (d: Region)
    ensures forall p :: p in d <==> p in s && Differs(f, g, p)
  {
    set p | p in s && Differs(f, g, p)
  }

  ghost predicate RowDiffers(f: Frame, g: Frame, y: int, left: int, right: int) {
    exists p: Point :: p.y == y && left <= p.x < right && Differs(f, g, p)
  }

  ghost predicate FirstRowDiffers(f: Frame, g: Frame, r: Rect) {
    RowDiffers(f, g, r.top, r.left, r.right)
  }

  /** `box` is the smallest rectangle that contains every differing pixel of `r`. */
  ghost predicate IsTight(f: Frame, g: Frame, r: Rect, box: Rect) {
    IsBounds(box, Diff(f, g, Pixels(r)))
  }

  lemma TightIsUnique(f: Frame, g: Frame, r: Rect, a: Rect, b: Rect)
    requires IsTight(f, g, r, a) && IsTight(f, g, r, b)
    ensures a == b
  {
  }

  lemma TightIsInside(f: Frame, g: Frame, r: Rect, box: Rect)
    requires IsTight(f, g, r, box)
    ensures Pixels(box) <= Pixels(r) && !box.IsEmpty()
  {
  }

  /** `boxes` are the tight boxes of the passed rectangles. */
  ghost predicate AllTight(f: Frame, g: Frame, passed: seq<Rect>, boxes: seq<Rect>) {
    |boxes| == |passed| && forall i :: 0 <= i < |passed| ==> IsTight(f, g, passed[i], boxes[i])
  }

  const BLOCK_SIZE := 32

  /** Block `k` of a row of blocks holds a differing pixel. */
  ghost predicate BlockDiffers(f: Frame, g: Frame, r: Rect, k: nat) {
    exists p: Point ::
      r.left + BLOCK_SIZE * k <= p.x < Min(r.left + BLOCK_SIZE * k + BLOCK_SIZE, r.right) &&
      r.top <= p.y < r.bottom && Differs(f, g, p)
  }

  /** `r` is made of neighbouring blocks of one row of blocks, all of which differ. */
  ghost predicate IsJoined(f: Frame, g: Frame, r: Rect) {
    r.Height() <= BLOCK_SIZE && forall k: nat :: r.left + BLOCK_SIZE * k < r.right ==> BlockDiffers(f, g, r, k)
  }

  /** Rectangles that have no row in common, or at least a column between them. */
  predicate AreApart(a: Rect, b: Rect) {
    a.bottom <= b.top || b.bottom <= a.top || a.right < b.left || b.right < a.left
  }

  /** The passed rectangles lie in `r` and apart, start with a differing row, are
      made of differing blocks, and miss no differing pixel of `r`. */
  ghost predicate Passes(f: Frame, g: Frame, r: Rect, passed: seq<Rect>) {
    && (forall i :: 0 <= i < |passed| ==> Inside(passed[i], r) && FirstRowDiffers(f, g, passed[i]))
    && (forall i :: 0 <= i < |passed| ==> IsJoined(f, g, passed[i]))
    && (forall i, j :: 0 <= i < j < |passed| ==> AreApart(passed[i], passed[j]))
    && (forall p :: r.Contains(p) && Differs(f, g, p) ==> InSome(passed, p))
  }

  predicate Inside(a: Rect, b: Rect) {
    b.left <= a.left <= a.right <= b.right && b.top <= a.top <= a.bottom <= b.bottom
  }

  ghost predicate InSome(rects: seq<Rect>, p: Point) {
    exists i :: 0 <= i < |rects| && rects[i].Contains(p)
  }

  lemma InSomeAppend(a: seq<Rect>, b: seq<Rect>, p: Point)
    ensures InSome(a + b, p) <==> InSome(a, p) || InSome(b, p)
  {
    if InSome(a, p) {
      var i :| 0 <= i < |a| && a[i].Contains(p);
      assert (a + b)[i].Contains(p);
    }
    if InSome(b, p) {
      var i :| 0 <= i < |b| && b[i].Contains(p);
      assert (a + b)[|a| + i].Contains(p);
    }
  }

  lemma UnionOfAppend(a: seq<Rect>, b: seq<Rect>)
    ensures UnionOf(a + b) == UnionOf(a) + UnionOf(b)
  {
    forall p ensures p in UnionOf(a + b) <==> p in UnionOf(a) + UnionOf(b) {
      InSomeAppend(a, b, p);
    }
  }

  /** What the boxes of a faithful list amount to: they contain the simple diff
      and stay inside the rectangle. */
  lemma BoxesCoverDiff(f: Frame, g: Frame, r: Rect, passed: seq<Rect>, boxes: seq<Rect>)
    requires Passes(f, g, r, passed) && AllTight(f, g, passed, boxes)
    ensures Diff(f, g, Pixels(r)) <= UnionOf(boxes) <= Pixels(r)
  {
    hide Passes, AllTight, Diff;
    forall p | p in Diff(f, g, Pixels(r)) ensures p in UnionOf(boxes) {
      DiffInBox(f, g, r, passed, boxes, p);
    }
    forall p | p in UnionOf(boxes) ensures p in Pixels(r) {
      BoxInRect(f, g, r, passed, boxes, p);
    }
  }

  lemma DiffInBox(f: Frame, g: Frame, r: Rect, passed: seq<Rect>, boxes: seq<Rect>, p: Point)
    requires Passes(f, g, r, passed) && AllTight(f, g, passed, boxes)
    requires r.Contains(p) && Differs(f, g, p)
    ensures p in UnionOf(boxes)
  {
    assert InSome(passed, p);
    var i :| 0 <= i < |passed| && passed[i].Contains(p);
    assert p in Diff(f, g, Pixels(passed[i]));
    assert IsTight(f, g, passed[i], boxes[i]);
    assert boxes[i].Contains(p);
  }

  lemma BoxInRect(f: Frame, g: Frame, r: Rect, passed: seq<Rect>, boxes: seq<Rect>, p: Point)
    requires Passes(f, g, r, passed) && AllTight(f, g, passed, boxes)
    requires p in UnionOf(boxes)
    ensures r.Contains(p)
  {
    var i :| 0 <= i < |boxes| && boxes[i].Contains(p);
    TightIsInside(f, g, passed[i], boxes[i]);
    assert p in Pixels(passed[i]);
  }

  // ---------- Building the list of passed rectangles ----------

  ghost predicate RowsEqual(f: Frame, g: Frame, top: int, bottom: int, left: int, right: int) {
    forall y :: top <= y < bottom ==> !RowDiffers(f, g, y, left, right)
  }

  lemma RowDiffersSplit(f: Frame, g: Frame, y: int, a: int, b: int, c: int)
    requires a <= b <= c
    ensures RowDiffers(f, g, y, a, c) <==> RowDiffers(f, g, y, a, b) || RowDiffers(f, g, y, b, c)
  {
  }

  lemma RowsEqualJoin(f: Frame, g: Frame, top: int, bottom: int, a: int, b: int, c: int)
    requires a <= b <= c && RowsEqual(f, g, top, bottom, a, b) && RowsEqual(f, g, top, bottom, b, c)
    ensures RowsEqual(f, g, top, bottom, a, c)
  {
    forall y | top <= y < bottom ensures !RowDiffers(f, g, y, a, c) {
      RowDiffersSplit(f, g, y, a, b, c);
    }
  }

  lemma EqualPixel(f: Frame, g: Frame, top: int, bottom: int, left: int, right: int, p: Point)
    requires RowsEqual(f, g, top, bottom, left, right) && Rect(left, top, right, bottom).Contains(p)
    ensures !Differs(f, g, p)
  {
    assert !RowDiffers(f, g, p.y, left, right);
  }

  /** A part without differences needs no rectangle. */
  lemma PassesMore(f: Frame, g: Frame, a: Rect, b: Rect, passed: seq<Rect>)
    requires Passes(f, g, a, passed) && Inside(a, b)
    requires forall p :: b.Contains(p) && !a.Contains(p) ==> !Differs(f, g, p)
    ensures Passes(f, g, b, passed)
  {
  }

  lemma PassesNothing(f: Frame, g: Frame, r: Rect)
    requires forall p :: r.Contains(p) ==> !Differs(f, g, p)
    ensures Passes(f, g, r, [])
  {
  }

  lemma PassesItself(f: Frame, g: Frame, r: Rect)
    requires r.IsValid() && FirstRowDiffers(f, g, r) && IsJoined(f, g, r)
    ensures Passes(f, g, r, [r])
  {
    assert forall p :: r.Contains(p) ==> [r][0].Contains(p);
  }

  /** A rectangle that fits one block is one. */
  lemma SmallIsJoined(f: Frame, g: Frame, r: Rect)
    requires r.Width() <= BLOCK_SIZE && r.Height() <= BLOCK_SIZE && r.top < r.bottom && FirstRowDiffers(f, g, r)
    ensures IsJoined(f, g, r)
  {
    forall k: nat | r.left + BLOCK_SIZE * k < r.right ensures BlockDiffers(f, g, r, k) {
      var p: Point :| p.y == r.top && r.left <= p.x < r.right && Differs(f, g, p);
      assert k == 0;
    }
  }

  /** One list ends before the other starts. */
  predicate ListsApart(pa: seq<Rect>, pb: seq<Rect>) {
    forall i, j :: 0 <= i < |pa| && 0 <= j < |pb| ==> AreApart(pa[i], pb[j])
  }

  lemma RowsApart(f: Frame, g: Frame, a: Rect, b: Rect, pa: seq<Rect>, pb: seq<Rect>)
    requires Passes(f, g, a, pa) && Passes(f, g, b, pb) && a.bottom <= b.top
    ensures ListsApart(pa, pb)
  {
    hide IsJoined, FirstRowDiffers;
  }

  lemma PassesAppend(f: Frame, g: Frame, a: Rect, b: Rect, c: Rect, pa: seq<Rect>, pb: seq<Rect>)
    requires Passes(f, g, a, pa) && Passes(f, g, b, pb) && Inside(a, c) && Inside(b, c) && ListsApart(pa, pb)
    requires forall p :: c.Contains(p) && !a.Contains(p) && !b.Contains(p) ==> !Differs(f, g, p)
    ensures Passes(f, g, c, pa + pb)
  {
    hide IsJoined, FirstRowDiffers, AreApart;
    forall i, j | 0 <= i < j < |pa + pb| ensures AreApart((pa + pb)[i], (pa + pb)[j]) {
      if i < |pa| <= j {
        assert AreApart(pa[i], pb[j - |pa|]);
      } else if j < |pa| {
        assert AreApart(pa[i], pa[j]);
      } else {
        assert AreApart(pb[i - |pa|], pb[j - |pa|]);
      }
    }
    forall p | c.Contains(p) && Differs(f, g, p) ensures InSome(pa + pb, p) {
      InSomeAppend(pa, pb, p);
    }
  }

  lemma AllTightAppend(f: Frame, g: Frame, pa: seq<Rect>, ba: seq<Rect>, pb: seq<Rect>, bb: seq<Rect>)
    requires AllTight(f, g, pa, ba) && AllTight(f, g, pb, bb)
    ensures AllTight(f, g, pa + pb, ba + bb)
    ensures UnionOf(ba + bb) == UnionOf(ba) + UnionOf(bb)
  {
    hide IsTight, UnionOf;
    UnionOfAppend(ba, bb);
    forall i | 0 <= i < |pa + pb| ensures IsTight(f, g, (pa + pb)[i], (ba + bb)[i]) {
      if i >= |pa| {
        assert IsTight(f, g, pb[i - |pa|], bb[i - |pa|]);
      }
    }
  }

  lemma AllTightOne(f: Frame, g: Frame, r: Rect, box: Rect)
    requires IsTight(f, g, r, box)
    ensures AllTight(f, g, [r], [box]) && UnionOf([box]) == Pixels(box)
  {
    assert [box][..0] == [];
  }

  /** The region grew by the tight boxes of rectangles passed for `r`. */
  ghost predicate Filtered(f: Frame, g: Frame, r: Rect, before: Region, after: Region, passed: seq<Rect>,
                           boxes: seq<Rect>) {
    Passes(f, g, r, passed) && AllTight(f, g, passed, boxes) && after == before + UnionOf(boxes)
  }

  /** Such growth takes in the simple diff and nothing outside the rectangle. */
  lemma FilteredCovers(f: Frame, g: Frame, r: Rect, before: Region, after: Region, passed: seq<Rect>, boxes: seq<Rect>)
    requires Filtered(f, g, r, before, after, passed, boxes)
    ensures before + Diff(f, g, Pixels(r)) <= after <= before + Pixels(r)
  {
    hide Passes, AllTight, Diff;
    BoxesCoverDiff(f, g, r, passed, boxes);
  }

  lemma FilteredAppend(f: Frame, g: Frame, a: Rect, b: Rect, c: Rect, r0: Region, r1: Region, r2: Region,
                       pa: seq<Rect>, ba: seq<Rect>, pb: seq<Rect>, bb: seq<Rect>)
    requires Filtered(f, g, a, r0, r1, pa, ba) && Filtered(f, g, b, r1, r2, pb, bb)
    requires Inside(a, c) && Inside(b, c) && (a.bottom <= b.top || ListsApart(pa, pb))
    requires forall p :: c.Contains(p) && !a.Contains(p) && !b.Contains(p) ==> !Differs(f, g, p)
    ensures Filtered(f, g, c, r0, r2, pa + pb, ba + bb)
  {
    hide Passes, AllTight, Differs, ListsApart;
    if a.bottom <= b.top {
      RowsApart(f, g, a, b, pa, pb);
    }
    PassesAppend(f, g, a, b, c, pa, pb);
    AllTightAppend(f, g, pa, ba, pb, bb);
  }

  lemma FilteredOne(f: Frame, g: Frame, r: Rect, before: Region, box: Rect)
    requires r.IsValid() && FirstRowDiffers(f, g, r) && IsJoined(f, g, r) && IsTight(f, g, r, box)
    ensures Filtered(f, g, r, before, before + Pixels(box), [r], [box])
  {
    hide Passes, AllTight, IsTight, IsJoined;
    PassesItself(f, g, r);
    AllTightOne(f, g, r, box);
  }

  lemma FilteredNothing(f: Frame, g: Frame, r: Rect, before: Region)
    requires forall p :: r.Contains(p) ==> !Differs(f, g, p)
    ensures Filtered(f, g, r, before, before, [], [])
  {
    PassesNothing(f, g, r);
  }

  lemma FilteredMore(f: Frame, g: Frame, a: Rect, b: Rect, before: Region, after: Region, passed: seq<Rect>,
                     boxes: seq<Rect>)
    requires Filtered(f, g, a, before, after, passed, boxes) && Inside(a, b)
    requires forall p :: b.Contains(p) && !a.Contains(p) ==> !Differs(f, g, p)
    ensures Filtered(f, g, b, before, after, passed, boxes)
  {
    hide AllTight;
    PassesMore(f, g, a, b, passed);
  }

  // ---------- Several rectangles ----------

  /** The region was collected from the rectangles in turn. */
  ghost predicate Collected(f: Frame, g: Frame, pieces: seq<Rect>, d: Region) {
    if pieces == [] then d == {}
    else
      var n := |pieces| - 1;
      exists before: Region, passed: seq<Rect>, boxes: seq<Rect> ::
        Collected(f, g, pieces[..n], before) && Filtered(f, g, pieces[n], before, d, passed, boxes)
  }

  lemma CollectedNext(f: Frame, g: Frame, pieces: seq<Rect>, i: nat, before: Region, after: Region,
                      passed: seq<Rect>, boxes: seq<Rect>)
    requires i < |pieces| && Collected(f, g, pieces[..i], before)
    requires Filtered(f, g, pieces[i], before, after, passed, boxes)
    ensures Collected(f, g, pieces[..i + 1], after)
  {
    hide Filtered;
    var next := pieces[..i + 1];
    assert next[..|next| - 1] == pieces[..i] && next[|next| - 1] == pieces[i];
  }

  /** It holds every differing pixel of the rectangles, and nothing else of them. */
  lemma {:induction false} CollectedCovers(f: Frame, g: Frame, pieces: seq<Rect>, d: Region)
    requires Collected(f, g, pieces, d)
    ensures Diff(f, g, UnionOf(pieces)) <= d <= UnionOf(pieces)
  {
    hide Filtered, Diff, Differs;
    if pieces != [] {
      var n := |pieces| - 1;
      var before, passed, boxes :| Collected(f, g, pieces[..n], before) &&
        Filtered(f, g, pieces[n], before, d, passed, boxes);
      CollectedCovers(f, g, pieces[..n], before);
      FilteredCovers(f, g, pieces[n], before, d, passed, boxes);
    }
  }

  /** Every pixel of it lies in the smallest box around the differing pixels of a
      rectangle that lies in one of the pieces, starts with a differing row, is at
      most 32 rows high, and differs in each 32 columns from its left. */
  lemma {:induction false} CollectedPixel(f: Frame, g: Frame, pieces: seq<Rect>, d: Region, p: Point)
    returns (k: nat, r: Rect, box: Rect)
    requires Collected(f, g, pieces, d) && p in d
    ensures k < |pieces| && Inside(r, pieces[k]) && FirstRowDiffers(f, g, r) && IsTight(f, g, r, box)
    ensures box.Contains(p) && Pixels(box) <= d
    ensures r.bottom - r.top <= 32
    ensures forall n: nat :: r.left + 32 * n < r.right ==>
              exists q: Point ::
                r.left + 32 * n <= q.x < Min(r.left + 32 * n + 32, r.right) && r.top <= q.y < r.bottom &&
                Differs(f, g, q)
  {
    hide IsTight, FirstRowDiffers, Differs, UnionOf;
    var n := |pieces| - 1;
    var before, passed, boxes :| Collected(f, g, pieces[..n], before) &&
      Filtered(f, g, pieces[n], before, d, passed, boxes);
    if p in before {
      k, r, box := CollectedPixel(f, g, pieces[..n], before, p);
    } else {
      var i := BoxOf(boxes, p);
      k, r, box := n, passed[i], boxes[i];
      BoxInUnion(boxes, i);
      assert IsJoined(f, g, r);
      forall m: nat | r.left + 32 * m < r.right
        ensures exists q: Point ::
                  r.left + 32 * m <= q.x < Min(r.left + 32 * m + 32, r.right) && r.top <= q.y < r.bottom &&
                  Differs(f, g, q)
      {
        assert BlockDiffers(f, g, r, m);
      }
    }
  }

  lemma BoxOf(boxes: seq<Rect>, p: Point) returns (i: nat)
    requires p in UnionOf(boxes)
    ensures i < |boxes| && boxes[i].Contains(p)
  {
    i :| 0 <= i < |boxes| && boxes[i].Contains(p);
  }

  lemma BoxInUnion(boxes: seq<Rect>, i: nat)
    requires i < |boxes|
    ensures Pixels(boxes[i]) <= UnionOf(boxes)
  {
  }

  /** Where nothing differs nothing is collected. */
  lemma NothingCollectedIff(f: Frame, g: Frame, pieces: seq<Rect>, d: Region)
    requires Collected(f, g, pieces, d)
    ensures d == {} <==> Diff(f, g, UnionOf(pieces)) == {}
  {
    hide Diff, FirstRowDiffers, UnionOf, Collected;
    CollectedCovers(f, g, pieces, d);
    if d != {} {
      var p :| p in d;
      var k, r, box := CollectedPixel(f, g, pieces, d, p);
      TightIsInside(f, g, r, box);
      DiffInPiece(f, g, pieces, k, r, p);
    }
  }

  lemma DiffInPiece(f: Frame, g: Frame, pieces: seq<Rect>, k: nat, r: Rect, o: Point)
    requires k < |pieces| && Inside(r, pieces[k]) && FirstRowDiffers(f, g, r) && o in Pixels(r)
    ensures Diff(f, g, UnionOf(pieces)) != {}
  {
    var p: Point :| p.y == r.top && r.left <= p.x < r.right && Differs(f, g, p);
    assert pieces[k].Contains(p);
    assert p in Diff(f, g, UnionOf(pieces));
  }

  lemma {:induction false} CollectsNothing(f: Frame, g: Frame, pieces: seq<Rect>)
    requires forall p :: p in UnionOf(pieces) ==> !Differs(f, g, p)
    ensures Collected(f, g, pieces, {})
  {
    hide Filtered, Differs;
    if pieces != [] {
      var n := |pieces| - 1;
      CollectsNothing(f, g, pieces[..n]);
      FilteredNothing(f, g, pieces[n], {});
    }
  }
}
