/** The frame buffer class (rfb/FrameBuffer.cpp).

    The methods walk byte offsets row by row, as the source does.  Their
    contracts speak of the picture, `Content()`. */
module FrameBuffers {
  import opened Geometry
  import opened Frames

  // ---------- Clipping ----------

  /** `clipRect`: the parts of a destination and a source rectangle that lie in
      their buffers and correspond to each other. */
  function ClipRect(dstBuf: Rect, dstRect: Rect, srcBuf: Rect, srcX: int, srcY: int): (Rect, Rect) {
    var srcRect := Rect(srcX, srcY, srcX + dstRect.Width(), srcY + dstRect.Height());
    var dstCommon := dstBuf.Intersection(dstRect).Move(-dstRect.left, -dstRect.top);
    var srcCommon := srcBuf.Intersection(srcRect).Move(-srcRect.left, -srcRect.top);
    var common := dstCommon.Intersection(srcCommon);
    (common.Move(dstRect.left, dstRect.top), common.Move(srcRect.left, srcRect.top))
  }

  lemma ClipRectAt(dstBuf: Rect, dstRect: Rect, srcBuf: Rect, srcX: int, srcY: int, p: Point)
    ensures var (dst, src) := ClipRect(dstBuf, dstRect, srcBuf, srcX, srcY);
            var q := Plus(Minus(p, dstRect.TopLeft()), Point(srcX, srcY));
            && (dst.Contains(p) <==> dstBuf.Contains(p) && dstRect.Contains(p) && srcBuf.Contains(q))
            && (src.Contains(q) <==> dst.Contains(p))
  {
    hide Rect.Intersection;
    var srcRect := Rect(srcX, srcY, srcX + dstRect.Width(), srcY + dstRect.Height());
    var q := Plus(Minus(p, dstRect.TopLeft()), Point(srcX, srcY));
    IntersectionContains(dstBuf, dstRect, p);
    IntersectionContains(srcBuf, srcRect, q);
    IntersectionContains(dstBuf.Intersection(dstRect).Move(-dstRect.left, -dstRect.top),
                         srcBuf.Intersection(srcRect).Move(-srcRect.left, -srcRect.top), Minus(p, dstRect.TopLeft()));
  }

  /** The two clipped rectangles have the same size and lie in their buffers. */
  lemma ClipRectBounds(dstBuf: Rect, dstRect: Rect, srcBuf: Rect, srcX: int, srcY: int)
    ensures var (dst, src) := ClipRect(dstBuf, dstRect, srcBuf, srcX, srcY);
            && src == dst.Move(srcX - dstRect.left, srcY - dstRect.top)
            && (!dst.IsEmpty() ==>
                  && dstBuf.left <= dst.left && dst.right <= dstBuf.right
                  && dstBuf.top <= dst.top && dst.bottom <= dstBuf.bottom
                  && srcBuf.left <= src.left && src.right <= srcBuf.right
                  && srcBuf.top <= src.top && src.bottom <= srcBuf.bottom)
  {
    var (dst, src) := ClipRect(dstBuf, dstRect, srcBuf, srcX, srcY);
    if !dst.IsEmpty() {
      ClipRectAt(dstBuf, dstRect, srcBuf, srcX, srcY, dst.TopLeft());
      ClipRectAt(dstBuf, dstRect, srcBuf, srcX, srcY, Point(dst.right - 1, dst.bottom - 1));
    }
  }

  /** The clipped copy is the whole copy. */
  lemma ClippedCopy(f: Frame, dstBuf: Rect, dstRect: Rect, g: Frame, srcBuf: Rect, srcX: int, srcY: int)
    requires f.Keys == Pixels(dstBuf) && g.Keys == Pixels(srcBuf)
    ensures var (dst, src) := ClipRect(dstBuf, dstRect, srcBuf, srcX, srcY);
            && (!dst.IsEmpty() ==> Copied(f, dst, g, src.TopLeft()) == Copied(f, dstRect, g, Point(srcX, srcY)))
            && (dst.IsEmpty() ==> f == Copied(f, dstRect, g, Point(srcX, srcY)))
  {
    hide ClipRect, Copied;
    var (dst, src) := ClipRect(dstBuf, dstRect, srcBuf, srcX, srcY);
    ClipRectBounds(dstBuf, dstRect, srcBuf, srcX, srcY);
    forall p | p in f
      ensures !dst.IsEmpty() ==> Copied(f, dst, g, src.TopLeft())[p] == Copied(f, dstRect, g, Point(srcX, srcY))[p]
      ensures dst.IsEmpty() ==> f[p] == Copied(f, dstRect, g, Point(srcX, srcY))[p]
    {
      ClipRectAt(dstBuf, dstRect, srcBuf, srcX, srcY, p);
      CopiedPixel(f, dst, g, src.TopLeft(), p);
      CopiedPixel(f, dstRect, g, Point(srcX, srcY), p);
      assert Plus(Minus(p, dst.TopLeft()), src.TopLeft()) == Plus(Minus(p, dstRect.TopLeft()), Point(srcX, srcY));
    }
  }

  lemma CopiedPixel(f: Frame, r: Rect, g: Frame, from: Point, p: Point)
    requires p in f
    ensures var q := Plus(Minus(p, r.TopLeft()), from);
            Copied(f, r, g, from)[p] == if r.Contains(p) && q in g then g[q] else f[p]
  {
  }

  /** Copying downwards, one more row. */
  lemma NextRowDown(f: Frame, r: Rect, i: int, g: Frame, from: Point)
    requires 0 <= i < r.Height()
    ensures RowCopied(Copied(f, r.(bottom := r.top + i), g, from), r.top + i, r.left, r.Width(), g,
                      from.y + i, from.x) ==
            Copied(f, r.(bottom := r.top + i + 1), g, from)
  {
  }

  /** Copying upwards, one more row. */
  lemma NextRowUp(f: Frame, r: Rect, i: int, g: Frame, from: Point)
    requires 0 <= i < r.Height()
    ensures RowCopied(Copied(f, r.(top := r.top + i + 1), g, Plus(from, Point(0, i + 1))),
                      r.top + i, r.left, r.Width(), g, from.y + i, from.x) ==
            Copied(f, r.(top := r.top + i), g, Plus(from, Point(0, i)))
  {
    hide Copied;
    forall p | p in f
      ensures RowCopied(Copied(f, r.(top := r.top + i + 1), g, Plus(from, Point(0, i + 1))),
                        r.top + i, r.left, r.Width(), g, from.y + i, from.x)[p] ==
              Copied(f, r.(top := r.top + i), g, Plus(from, Point(0, i)))[p]
    {
      CopiedAt(f, r, i + 1, g, from, p);
      CopiedAt(f, r, i, g, from, p);
      if p.y == r.top + i {
        assert Plus(Minus(p, r.TopLeft()), from) == Point(p.x - r.left + from.x, from.y + i);
      }
    }
  }

  /** The lower part of a copy, pixel by pixel. */
  lemma CopiedAt(f: Frame, r: Rect, i: int, g: Frame, from: Point, p: Point)
    requires p in f
    ensures var q := Plus(Minus(p, r.TopLeft()), from);
            Copied(f, r.(top := r.top + i), g, Plus(from, Point(0, i)))[p] ==
            if r.left <= p.x < r.right && r.top + i <= p.y < r.bottom && q in g then g[q] else f[p]
  {
    assert Plus(Minus(p, Point(r.left, r.top + i)), Plus(from, Point(0, i))) == Plus(Minus(p, r.TopLeft()), from);
  }

  /** A row outside the rectangles written so far is still the old one. */
  lemma SourceRowIntact(dst: Frame, y: int, l: int, n: int, f: Frame, r: Rect, from: Point, ys: int, ls: int)
    requires !(r.top <= ys < r.bottom)
    ensures RowCopied(dst, y, l, n, Copied(f, r, f, from), ys, ls) == RowCopied(dst, y, l, n, f, ys, ls)
  {
  }

  lemma CopiedNothing(f: Frame, r: Rect, g: Frame, from: Point)
    requires r.IsEmpty()
    ensures Copied(f, r, g, from) == f
  {
    assert forall p :: !r.Contains(p);
  }

  // ---------- Overlaying ----------

  /** The mask over the pixels of `from` that come before `(row, col)` in reading order. */
  function Before(mask: Point -> bool, from: Rect, row: int, col: int): Point -> bool {
    (q: Point) => mask(q) && from.Contains(q) && (q.y < row || (q.y == row && q.x < col))
  }

  lemma OverlayNothing(f: Frame, r: Rect, g: Frame, mask: Point -> bool)
    requires forall p :: p in f && r.Contains(p) && Minus(p, r.TopLeft()) in g ==> !mask(Minus(p, r.TopLeft()))
    ensures Overlaid(f, r, g, mask) == f
  {
  }

  lemma OverlaySame(f: Frame, r: Rect, g: Frame, mask: Point -> bool, other: Point -> bool)
    requires forall p :: p in f && r.Contains(p) && Minus(p, r.TopLeft()) in g ==>
               mask(Minus(p, r.TopLeft())) == other(Minus(p, r.TopLeft()))
    ensures Overlaid(f, r, g, mask) == Overlaid(f, r, g, other)
  {
  }

  /** The clipped overlay is the whole overlay. */
  lemma ClippedOverlay(f: Frame, dstBuf: Rect, dstRect: Rect, g: Frame, srcBuf: Rect, mask: Point -> bool)
    requires f.Keys == Pixels(dstBuf) && g.Keys == Pixels(srcBuf)
    ensures var (dst, from) := ClipRect(dstBuf, dstRect, srcBuf, 0, 0);
            && (dst.Area() <= 0 || from.Area() <= 0 ==> Overlaid(f, dstRect, g, mask) == f)
            && Overlaid(f, dstRect, g, Before(mask, from, from.bottom, from.left)) == Overlaid(f, dstRect, g, mask)
            && forall q :: from.Contains(q) ==> dstRect.Contains(Plus(q, dstRect.TopLeft()))
  {
    hide Overlaid, ClipRect;
    var (dst, from) := ClipRect(dstBuf, dstRect, srcBuf, 0, 0);
    ClipRectBounds(dstBuf, dstRect, srcBuf, 0, 0);
    forall p | p in f && dstRect.Contains(p) && Minus(p, dstRect.TopLeft()) in g
      ensures from.Contains(Minus(p, dstRect.TopLeft()))
    {
      ClipRectAt(dstBuf, dstRect, srcBuf, 0, 0, p);
      assert Plus(Minus(p, dstRect.TopLeft()), Point(0, 0)) == Minus(p, dstRect.TopLeft());
    }
    forall q | from.Contains(q) ensures dstRect.Contains(Plus(q, dstRect.TopLeft())) {
      ClipRectAt(dstBuf, dstRect, srcBuf, 0, 0, Plus(q, dstRect.TopLeft()));
      assert Plus(Minus(Plus(q, dstRect.TopLeft()), dstRect.TopLeft()), Point(0, 0)) == q;
    }
    if dst.Area() <= 0 || from.Area() <= 0 {
      AreaOfNothing(dst);
      AreaOfNothing(from);
      OverlayNothing(f, dstRect, g, mask);
    }
    OverlaySame(f, dstRect, g, Before(mask, from, from.bottom, from.left), mask);
  }

  lemma AreaOfNothing(r: Rect)
    ensures r.Area() <= 0 <==> r.IsEmpty()
  {
    if !r.IsEmpty() {
      assert r.Width() * r.Height() > 0;
    }
  }

  lemma OverlayStart(f: Frame, r: Rect, g: Frame, mask: Point -> bool, from: Rect)
    ensures Overlaid(f, r, g, Before(mask, from, from.top, from.left)) == f
  {
    OverlayNothing(f, r, g, Before(mask, from, from.top, from.left));
  }

  lemma OverlayNextRow(f: Frame, r: Rect, g: Frame, mask: Point -> bool, from: Rect, row: int)
    ensures Overlaid(f, r, g, Before(mask, from, row, from.right)) ==
            Overlaid(f, r, g, Before(mask, from, row + 1, from.left))
  {
    OverlaySame(f, r, g, Before(mask, from, row, from.right), Before(mask, from, row + 1, from.left));
  }

  lemma OverlayPixel(f: Frame, r: Rect, g: Frame, mask: Point -> bool, from: Rect, row: int, col: int)
    requires from.Contains(Point(col, row)) && r.Contains(Plus(Point(col, row), r.TopLeft())) && Point(col, row) in g
    ensures var o := Overlaid(f, r, g, Before(mask, from, row, col));
            Overlaid(f, r, g, Before(mask, from, row, col + 1)) ==
            if mask(Point(col, row)) then RowCopied(o, row + r.top, col + r.left, 1, g, row, col) else o
  {
    hide Overlaid, RowCopied;
    var o := Overlaid(f, r, g, Before(mask, from, row, col));
    var o' := Overlaid(f, r, g, Before(mask, from, row, col + 1));
    var e := if mask(Point(col, row)) then RowCopied(o, row + r.top, col + r.left, 1, g, row, col) else o;
    RowCopiedOne(o, row + r.top, col + r.left, g, row, col);
    forall p | p in f ensures o'[p] == e[p] {
      OverlaidAt(f, r, g, Before(mask, from, row, col), p);
      OverlaidAt(f, r, g, Before(mask, from, row, col + 1), p);
    }
    assert e.Keys == f.Keys;
  }

  lemma OverlaidAt(f: Frame, r: Rect, g: Frame, mask: Point -> bool, p: Point)
    requires p in f
    ensures var q := Minus(p, r.TopLeft());
            Overlaid(f, r, g, mask)[p] == if r.Contains(p) && q in g && mask(q) then g[q] else f[p]
  {
  }

  lemma RowCopiedOne(o: Frame, y: int, x: int, g: Frame, ys: int, xs: int)
    requires Point(xs, ys) in g
    ensures var c := RowCopied(o, y, x, 1, g, ys, xs);
            && c.Keys == o.Keys
            && forall p :: p in o ==> c[p] == if p == Point(x, y) then g[Point(xs, ys)] else o[p]
  {
  }

  // ---------- Comparing ----------

  /** Every pixel of `f` in `r` equals the pixel of `g` shifted by `d`. */
  ghost predicate SameIn(f: Frame, r: Rect, g: Frame, d: Point) {
    forall p :: p in f && r.Contains(p) ==> Plus(p, d) in g && f[p] == g[Plus(p, d)]
  }

  /** The pixels of `f` in `r` equal those of `g` from `from` on, where both have pixels. */
  ghost predicate SameWhereBoth(f: Frame, r: Rect, g: Frame, from: Point) {
    forall p | p in f && r.Contains(p) ::
      var q := Plus(Minus(p, r.TopLeft()), from);
      q in g ==> f[p] == g[q]
  }

  lemma SameInNothing(f: Frame, r: Rect, g: Frame, d: Point)
    requires r.IsEmpty()
    ensures SameIn(f, r, g, d)
  {
  }

  lemma SameNextRow(f: Frame, r: Rect, i: int, g: Frame, d: Point)
    requires 0 <= i < r.Height() && SameIn(f, r.(bottom := r.top + i), g, d)
    ensures SameIn(f, r.(bottom := r.top + i + 1), g, d) <==> SameRow(f, g, r.top + i, r.left, r.Width(), d)
    ensures SameIn(f, r, g, d) ==> SameIn(f, r.(bottom := r.top + i + 1), g, d)
  {
  }

  lemma SameClipped(f: Frame, dstBuf: Rect, dstRect: Rect, g: Frame, srcBuf: Rect, srcX: int, srcY: int)
    requires f.Keys == Pixels(dstBuf) && g.Keys == Pixels(srcBuf)
    ensures var (dst, src) := ClipRect(dstBuf, dstRect, srcBuf, srcX, srcY);
            SameIn(f, dst, g, Minus(src.TopLeft(), dst.TopLeft())) <==> SameWhereBoth(f, dstRect, g, Point(srcX, srcY))
  {
    var (dst, src) := ClipRect(dstBuf, dstRect, srcBuf, srcX, srcY);
    ClipRectBounds(dstBuf, dstRect, srcBuf, srcX, srcY);
    forall p | p in f
      ensures var q := Plus(Minus(p, dstRect.TopLeft()), Point(srcX, srcY));
              && q == Plus(p, Minus(src.TopLeft(), dst.TopLeft()))
              && (dst.Contains(p) <==> dstRect.Contains(p) && q in g)
    {
      ClipRectAt(dstBuf, dstRect, srcBuf, srcX, srcY, p);
    }
  }

  lemma CopiedAll(f: Frame, g: Frame, r: Rect)
    requires f.Keys == g.Keys == Pixels(r)
    ensures Copied(f, r, g, r.TopLeft()) == g
  {
    forall p | p in f ensures Copied(f, r, g, r.TopLeft())[p] == g[p] {
      assert Plus(Minus(p, r.TopLeft()), r.TopLeft()) == p;
    }
  }

  // ---------- Offsets ----------

  lemma OffsetOf(y: int, w: int, l: int, bpp: int)
    ensures y * (w * bpp) + bpp * l == (y * w + l) * bpp
  {
    assert y * (w * bpp) == (y * w) * bpp;
    Distribute(y * w, l, bpp);
  }

  lemma AreaNotNegative(dim: Dimension, bpp: nat)
    ensures dim.Area() * bpp >= 0
  {
    if !dim.IsEmpty() {
      MulMonotone(0, dim.width, dim.height);
    }
    MulMonotone(0, dim.Area(), bpp);
  }

  lemma NextOffset(y: int, w: int, l: int, bpp: int)
    ensures ((y + 1) * w + l) * bpp == (y * w + l) * bpp + w * bpp
  {
    Distribute(y, 1, w);
    Distribute(y * w + l, w, bpp);
  }

  class FrameBuffer {
    var dim: Dimension
    var pf: PixelFormat
    var buffer: array<byte>

    ghost predicate Valid()
      reads this
    {
      pf.IsValid() && buffer.Length == dim.Area() * pf.BytesPerPixel()
    }

    ghost function Content(): (f: Frame)
      requires Valid()
      reads this, buffer
      ensures f.Keys == Pixels(dim.GetRect())
    {
      ContentOf(buffer[..], dim, pf.BytesPerPixel())
    }

    /** One memmove of `n` pixels; `src` may be this buffer. */
    method MoveRow(pdst: int, src: FrameBuffer, psrc: int, len: int,
                   ghost y: int, ghost l: int, ghost n: int, ghost ys: int, ghost ls: int)
      requires Valid() && src.Valid() && pf == src.pf
      requires 0 <= y < dim.height && 0 <= l && 0 <= n && l + n <= dim.width
      requires 0 <= ys < src.dim.height && 0 <= ls && ls + n <= src.dim.width
      requires pdst == (y * dim.width + l) * pf.BytesPerPixel() &&
               psrc == (ys * src.dim.width + ls) * pf.BytesPerPixel()
      requires len == n * pf.BytesPerPixel()
      modifies buffer
      ensures Content() == RowCopied(old(Content()), y, l, n, old(src.Content()), ys, ls)
    {
      ghost var bpp := pf.BytesPerPixel();
      BlockInside(dim, bpp, y, l, n);
      BlockInside(src.dim, bpp, ys, ls, n);
      forall k | 0 <= k < len {
        buffer[pdst + k] := src.buffer[psrc + k];
      }
      assert BytesWritten(old(buffer[..]), buffer[..], pdst, old(src.buffer[..]), psrc, len);
      RowWritten(old(buffer[..]), buffer[..], dim, old(src.buffer[..]), src.dim, bpp, y, l, n, ys, ls);
    }

    method CopyFrom(dstRect: Rect, src: FrameBuffer, srcX: int, srcY: int) returns (ok: bool)
      requires Valid() && src.Valid() && buffer != src.buffer
      modifies buffer
      ensures ok <==> pf == src.pf
      ensures Content() ==
              if ok then Copied(old(Content()), dstRect, src.Content(), Point(srcX, srcY)) else old(Content())
    {
      hide Copied, ClipRect, ContentOf;
      if pf != src.pf {
        return false;
      }
      ok := true;
      var (dst, from) := ClipRect(dim.GetRect(), dstRect, src.dim.GetRect(), srcX, srcY);
      ClipRectBounds(dim.GetRect(), dstRect, src.dim.GetRect(), srcX, srcY);
      ClippedCopy(Content(), dim.GetRect(), dstRect, src.Content(), src.dim.GetRect(), srcX, srcY);
      if dst.Area() <= 0 || from.Area() <= 0 {
        return;
      }
      CopyRows(dst, src, from);
    }

    /** The row loop of `copyFrom`. */
    method CopyRows(dst: Rect, src: FrameBuffer, from: Rect)
      requires Valid() && src.Valid() && buffer != src.buffer && pf == src.pf
      requires !dst.IsEmpty() && from == dst.Move(from.left - dst.left, from.top - dst.top)
      requires 0 <= dst.left && dst.right <= dim.width && 0 <= dst.top && dst.bottom <= dim.height
      requires 0 <= from.left && from.right <= src.dim.width && 0 <= from.top && from.bottom <= src.dim.height
      modifies buffer
      ensures Content() == Copied(old(Content()), dst, src.Content(), from.TopLeft())
    {
      hide Copied, RowCopied, ContentOf, Content;
      var pixelSize := pf.BytesPerPixel();
      var dstStride, srcStride := dim.width * pixelSize, src.dim.width * pixelSize;
      var height, width := dst.Height(), dst.Width() * pixelSize;
      var pdst := dst.top * dstStride + pixelSize * dst.left;
      var psrc := from.top * srcStride + pixelSize * from.left;
      OffsetOf(dst.top, dim.width, dst.left, pixelSize);
      OffsetOf(from.top, src.dim.width, from.left, pixelSize);
      CopiedNothing(Content(), dst.(bottom := dst.top), src.Content(), from.TopLeft());
      var i := 0;
      while i < height
        invariant 0 <= i <= height
        invariant pdst == ((dst.top + i) * dim.width + dst.left) * pixelSize
        invariant psrc == ((from.top + i) * src.dim.width + from.left) * pixelSize
        invariant src.Content() == old(src.Content())
        invariant Content() == Copied(old(Content()), dst.(bottom := dst.top + i), src.Content(), from.TopLeft())
      {
        MoveRow(pdst, src, psrc, width, dst.top + i, dst.left, dst.Width(), from.top + i, from.left);
        NextRowDown(old(Content()), dst, i, src.Content(), from.TopLeft());
        NextOffset(dst.top + i, dim.width, dst.left, pixelSize);
        NextOffset(from.top + i, src.dim.width, from.left, pixelSize);
        i, pdst, psrc := i + 1, pdst + dstStride, psrc + srcStride;
      }
    }

    /** `move`: a copy inside one buffer, whatever the overlap. */
    method Move(dstRect: Rect, srcX: int, srcY: int)
      requires Valid()
      modifies buffer
      ensures Content() == Copied(old(Content()), dstRect, old(Content()), Point(srcX, srcY))
    {
      hide Copied, ClipRect, ContentOf;
      var (dst, from) := ClipRect(dim.GetRect(), dstRect, dim.GetRect(), srcX, srcY);
      ClipRectBounds(dim.GetRect(), dstRect, dim.GetRect(), srcX, srcY);
      ClippedCopy(Content(), dim.GetRect(), dstRect, Content(), dim.GetRect(), srcX, srcY);
      if dst.Area() <= 0 || from.Area() <= 0 {
        return;
      }
      if srcY > dstRect.top {
        MoveRowsDown(dst, from);
      } else {
        MoveRowsUp(dst, from);
      }
    }

    /** First row to last, when the source is below the destination. */
    method MoveRowsDown(dst: Rect, from: Rect)
      requires Valid()
      requires !dst.IsEmpty() && from == dst.Move(from.left - dst.left, from.top - dst.top) && from.top > dst.top
      requires 0 <= dst.left && dst.right <= dim.width && 0 <= dst.top && dst.bottom <= dim.height
      requires 0 <= from.left && from.right <= dim.width && 0 <= from.top && from.bottom <= dim.height
      modifies buffer
      ensures Content() == Copied(old(Content()), dst, old(Content()), from.TopLeft())
    {
      hide Copied, RowCopied, ContentOf, Content;
      var pixelSize := pf.BytesPerPixel();
      var stride := dim.width * pixelSize;
      var height, width := dst.Height(), dst.Width() * pixelSize;
      var pdst := dst.top * stride + pixelSize * dst.left;
      var psrc := from.top * stride + pixelSize * from.left;
      OffsetOf(dst.top, dim.width, dst.left, pixelSize);
      OffsetOf(from.top, dim.width, from.left, pixelSize);
      ghost var f := Content();
      CopiedNothing(f, dst.(bottom := dst.top), f, from.TopLeft());
      var i := 0;
      while i < height
        invariant 0 <= i <= height
        invariant pdst == ((dst.top + i) * dim.width + dst.left) * pixelSize
        invariant psrc == ((from.top + i) * dim.width + from.left) * pixelSize
        invariant Content() == Copied(f, dst.(bottom := dst.top + i), f, from.TopLeft())
      {
        SourceRowIntact(Content(), dst.top + i, dst.left, dst.Width(),
                        f, dst.(bottom := dst.top + i), from.TopLeft(), from.top + i, from.left);
        NextRowDown(f, dst, i, f, from.TopLeft());
        MoveRow(pdst, this, psrc, width, dst.top + i, dst.left, dst.Width(), from.top + i, from.left);
        NextOffset(dst.top + i, dim.width, dst.left, pixelSize);
        NextOffset(from.top + i, dim.width, from.left, pixelSize);
        i, pdst, psrc := i + 1, pdst + stride, psrc + stride;
      }
    }

    /** Last row to first, when the source is level with the destination or above it. */
    method MoveRowsUp(dst: Rect, from: Rect)
      requires Valid()
      requires !dst.IsEmpty() && from == dst.Move(from.left - dst.left, from.top - dst.top) && from.top <= dst.top
      requires 0 <= dst.left && dst.right <= dim.width && 0 <= dst.top && dst.bottom <= dim.height
      requires 0 <= from.left && from.right <= dim.width && 0 <= from.top && from.bottom <= dim.height
      modifies buffer
      ensures Content() == Copied(old(Content()), dst, old(Content()), from.TopLeft())
    {
      hide Copied, RowCopied, ContentOf, Content;
      var pixelSize := pf.BytesPerPixel();
      var stride := dim.width * pixelSize;
      var height, width := dst.Height(), dst.Width() * pixelSize;
      var pdst := (dst.bottom - 1) * stride + pixelSize * dst.left;
      var psrc := (from.bottom - 1) * stride + pixelSize * from.left;
      OffsetOf(dst.bottom - 1, dim.width, dst.left, pixelSize);
      OffsetOf(from.bottom - 1, dim.width, from.left, pixelSize);
      ghost var f := Content();
      CopiedNothing(f, dst.(top := dst.bottom), f, Plus(from.TopLeft(), Point(0, height)));
      var i := height - 1;
      while i >= 0
        invariant -1 <= i < height
        invariant pdst == ((dst.top + i) * dim.width + dst.left) * pixelSize
        invariant psrc == ((from.top + i) * dim.width + from.left) * pixelSize
        invariant Content() == Copied(f, dst.(top := dst.top + i + 1), f, Plus(from.TopLeft(), Point(0, i + 1)))
      {
        SourceRowIntact(Content(), dst.top + i, dst.left, dst.Width(),
                        f, dst.(top := dst.top + i + 1), Plus(from.TopLeft(), Point(0, i + 1)), from.top + i,
                        from.left);
        NextRowUp(f, dst, i, f, from.TopLeft());
        MoveRow(pdst, this, psrc, width, dst.top + i, dst.left, dst.Width(), from.top + i, from.left);
        NextOffset(dst.top + i - 1, dim.width, dst.left, pixelSize);
        NextOffset(from.top + i - 1, dim.width, from.left, pixelSize);
        i, pdst, psrc := i - 1, pdst - stride, psrc - stride;
      }
      assert Plus(from.TopLeft(), Point(0, 0)) == from.TopLeft();
    }

    /** `cmpFrom`: whether the clipped rectangles show the same pixels. */
    method CmpFrom(dstRect: Rect, src: FrameBuffer, srcX: int, srcY: int) returns (same: bool)
      requires Valid() && src.Valid()
      ensures same <==> pf == src.pf && SameWhereBoth(Content(), dstRect, src.Content(), Point(srcX, srcY))
    {
      hide SameIn, SameWhereBoth, ClipRect, ContentOf;
      if pf != src.pf {
        return false;
      }
      var (dst, from) := ClipRect(dim.GetRect(), dstRect, src.dim.GetRect(), srcX, srcY);
      ClipRectBounds(dim.GetRect(), dstRect, src.dim.GetRect(), srcX, srcY);
      SameClipped(Content(), dim.GetRect(), dstRect, src.Content(), src.dim.GetRect(), srcX, srcY);
      if dst.Area() <= 0 || from.Area() <= 0 {
        SameInNothing(Content(), dst, src.Content(), Minus(from.TopLeft(), dst.TopLeft()));
        return true;
      }
      same := CmpRows(dst, src, from);
    }

    /** The row loop of `cmpFrom`. */
    method CmpRows(dst: Rect, src: FrameBuffer, from: Rect) returns (same: bool)
      requires Valid() && src.Valid() && pf == src.pf
      requires !dst.IsEmpty() && from == dst.Move(from.left - dst.left, from.top - dst.top)
      requires 0 <= dst.left && dst.right <= dim.width && 0 <= dst.top && dst.bottom <= dim.height
      requires 0 <= from.left && from.right <= src.dim.width && 0 <= from.top && from.bottom <= src.dim.height
      ensures same <==> SameIn(Content(), dst, src.Content(), Minus(from.TopLeft(), dst.TopLeft()))
    {
      hide ContentOf, SameIn, SameRow;
      SameInNothing(Content(), dst.(bottom := dst.top), src.Content(), Minus(from.TopLeft(), dst.TopLeft()));
      var pixelSize := pf.BytesPerPixel();
      var dstStride, srcStride := dim.width * pixelSize, src.dim.width * pixelSize;
      var height, width := dst.Height(), dst.Width() * pixelSize;
      var pdst := dst.top * dstStride + pixelSize * dst.left;
      var psrc := from.top * srcStride + pixelSize * from.left;
      OffsetOf(dst.top, dim.width, dst.left, pixelSize);
      OffsetOf(from.top, src.dim.width, from.left, pixelSize);
      var i := 0;
      while i < height
        invariant 0 <= i <= height
        invariant pdst == ((dst.top + i) * dim.width + dst.left) * pixelSize
        invariant psrc == ((from.top + i) * src.dim.width + from.left) * pixelSize
        invariant SameIn(Content(), dst.(bottom := dst.top + i), src.Content(), Minus(from.TopLeft(), dst.TopLeft()))
      {
        RowCompared(buffer[..], dim, src.buffer[..], src.dim, pixelSize,
                    dst.top + i, dst.left, dst.Width(), from.top + i, from.left);
        SameNextRow(Content(), dst, i, src.Content(), Minus(from.TopLeft(), dst.TopLeft()));
        if buffer[pdst..pdst + width] != src.buffer[psrc..psrc + width] {
          return false;
        }
        NextOffset(dst.top + i, dim.width, dst.left, pixelSize);
        NextOffset(from.top + i, src.dim.width, from.left, pixelSize);
        i, pdst, psrc := i + 1, pdst + dstStride, psrc + srcStride;
      }
      return true;
    }

    /** `overlay` from the source's origin: the pixels whose mask bit is set. */
    method Overlay(dstRect: Rect, src: FrameBuffer, mask: Point -> bool) returns (ok: bool)
      requires Valid() && src.Valid() && buffer != src.buffer
      modifies buffer
      ensures ok <==> pf == src.pf && pf.bitsPerPixel in {8, 16, 32}
      ensures Content() == if ok then Overlaid(old(Content()), dstRect, src.Content(), mask) else old(Content())
    {
      hide Overlaid, ClipRect, ContentOf, Content, Before;
      if pf != src.pf || pf.bitsPerPixel !in {8, 16, 32} {
        return false;
      }
      ok := true;
      var (dst, from) := ClipRect(dim.GetRect(), dstRect, src.dim.GetRect(), 0, 0);
      ClipRectBounds(dim.GetRect(), dstRect, src.dim.GetRect(), 0, 0);
      ClippedOverlay(Content(), dim.GetRect(), dstRect, src.Content(), src.dim.GetRect(), mask);
      if dst.Area() <= 0 || from.Area() <= 0 {
        return;
      }
      OverlayPixels(dst, dstRect, src, from, mask);
    }

    method MovePixel(src: FrameBuffer, row: int, col: int, y: int, x: int)
      requires Valid() && src.Valid() && buffer != src.buffer && pf == src.pf
      requires 0 <= x < dim.width && 0 <= y < dim.height && 0 <= col < src.dim.width && 0 <= row < src.dim.height
      modifies buffer
      ensures Content() == RowCopied(old(Content()), y, x, 1, old(src.Content()), row, col)
    {
      hide RowCopied, ContentOf, Content;
      var bpp := pf.BytesPerPixel();
      MoveRow((y * dim.width + x) * bpp, src, (row * src.dim.width + col) * bpp, bpp, y, x, 1, row, col);
    }

    /** One row of the pixel loops of `overlayT`. */
    method OverlayRow(dst: Rect, ghost dstRect: Rect, src: FrameBuffer, from: Rect, mask: Point -> bool, row: int,
                      ghost f: Frame)
      requires Valid() && src.Valid() && buffer != src.buffer && pf == src.pf
      requires from == dst.Move(-dstRect.left, -dstRect.top) && from.top <= row < from.bottom
      requires 0 <= dst.left && dst.right <= dim.width && 0 <= dst.top && dst.bottom <= dim.height
      requires 0 <= from.left <= from.right <= src.dim.width && 0 <= from.top && from.bottom <= src.dim.height
      requires forall q :: from.Contains(q) ==> dstRect.Contains(Plus(q, dstRect.TopLeft()))
      requires Content() == Overlaid(f, dstRect, src.Content(), Before(mask, from, row, from.left))
      modifies buffer
      ensures Content() == Overlaid(f, dstRect, src.Content(), Before(mask, from, row, from.right))
    {
      hide Overlaid, RowCopied, ContentOf, Content, Before, Dimension.Area;
      var col := from.left;
      while col < from.right
        invariant from.left <= col <= from.right
        invariant Content() == Overlaid(f, dstRect, src.Content(), Before(mask, from, row, col))
      {
        OverlayPixel(f, dstRect, src.Content(), mask, from, row, col);
        if mask(Point(col, row)) {
          MovePixel(src, row, col, dst.top + row - from.top, dst.left + col - from.left);
        }
        col := col + 1;
      }
    }

    /** The pixel loops of `overlayT`. */
    method OverlayPixels(dst: Rect, ghost dstRect: Rect, src: FrameBuffer, from: Rect, mask: Point -> bool)
      requires Valid() && src.Valid() && buffer != src.buffer && pf == src.pf
      requires !dst.IsEmpty() && from == dst.Move(-dstRect.left, -dstRect.top)
      requires 0 <= dst.left && dst.right <= dim.width && 0 <= dst.top && dst.bottom <= dim.height
      requires 0 <= from.left && from.right <= src.dim.width && 0 <= from.top && from.bottom <= src.dim.height
      requires forall q :: from.Contains(q) ==> dstRect.Contains(Plus(q, dstRect.TopLeft()))
      modifies buffer
      ensures Content() ==
              Overlaid(old(Content()), dstRect, src.Content(), Before(mask, from, from.bottom, from.left))
    {
      hide Overlaid, RowCopied, ContentOf, Content, Before, Dimension.Area;
      ghost var f := Content();
      OverlayStart(f, dstRect, src.Content(), mask, from);
      var row := from.top;
      while row < from.bottom
        invariant from.top <= row <= from.bottom
        invariant Content() == Overlaid(f, dstRect, src.Content(), Before(mask, from, row, from.left))
      {
        OverlayRow(dst, dstRect, src, from, mask, row, f);
        OverlayNextRow(f, dstRect, src.Content(), mask, from, row);
        row := row + 1;
      }
    }

    predicate IsEqualTo(other: FrameBuffer)
      reads this, other
    {
      dim == other.dim && pf == other.pf
    }

    constructor (dim: Dimension, pf: PixelFormat)
      requires pf.IsValid()
      ensures Valid() && fresh(buffer) && this.dim == dim && this.pf == pf
    {
      AreaNotNegative(dim, pf.BytesPerPixel());
      this.dim, this.pf := dim, pf;
      buffer := new byte[dim.Area() * pf.BytesPerPixel()];
    }

    /** New properties drop the old pixels. */
    method SetProperties(dim: Dimension, pf: PixelFormat)
      requires pf.IsValid()
      modifies this
      ensures Valid() && fresh(buffer) && this.dim == dim && this.pf == pf
    {
      AreaNotNegative(dim, pf.BytesPerPixel());
      this.dim, this.pf := dim, pf;
      buffer := new byte[dim.Area() * pf.BytesPerPixel()];
    }

    method Clone(src: FrameBuffer)
      requires src.Valid() && src != this
      modifies this
      ensures Valid() && fresh(buffer) && IsEqualTo(src) && Content() == src.Content()
    {
      hide Copied, ContentOf;
      SetProperties(src.dim, src.pf);
      CopiedAll(Content(), src.Content(), dim.GetRect());
      var ok := CopyFrom(dim.GetRect(), src, 0, 0);
    }
  }
}
