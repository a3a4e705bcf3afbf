/** Pictures and the bytes that show them (rfb/FrameBuffer.cpp).

    A frame is a map from points to pixels.  The lemmas tie the flat byte array
    of a frame buffer, addressed by row and column offsets, to its frame: what
    one memcpy of a row changes, and what one memcmp of a row compares. */
module Frames {
  import opened Geometry

  newtype byte = x: int | 0 <= x < 256

  type Bytes = seq<byte>

  type Pixel = Bytes

  type Frame = map<Point, Pixel>

  datatype PixelFormat = PixelFormat(
    bitsPerPixel: nat,
    colorDepth: nat,
    redMax: nat,
    greenMax: nat,
    blueMax: nat,
    redShift: nat,
    greenShift: nat,
    blueShift: nat,
    bigEndian: bool)
  {
    function BytesPerPixel(): nat {
      bitsPerPixel / 8
    }

    predicate IsValid() {
      bitsPerPixel % 8 == 0 && bitsPerPixel > 0
    }
  }

  // ---------- Pictures ----------

  /** The pictures differ at pixels of the region only. */
  ghost predicate ChangedOnlyIn(before: Frame, after: Frame, region: Region) {
    after.Keys == before.Keys && forall p :: p in before && after[p] != before[p] ==> p in region
  }

  /** `r` filled from `src`, its top left corner from `from`, where the source has pixels. */
  function Copied(dst: Frame, r: Rect, src: Frame, from: Point): (res: Frame)
    ensures res.Keys == dst.Keys
  {
    map p | p in dst ::
      var q := Plus(Minus(p, r.TopLeft()), from);
      if r.Contains(p) && q in src then src[q] else dst[p]
  }

  /** The same, but only through the pixels of a mask over the source. */
  function Overlaid(dst: Frame, r: Rect, src: Frame, mask: Point -> bool): (res: Frame)
    ensures res.Keys == dst.Keys
  {
    map p | p in dst ::
      var q := Minus(p, r.TopLeft());
      if r.Contains(p) && q in src && mask(q) then src[q] else dst[p]
  }

  /** `n` pixels of row `ys` of the source, from column `ls` on, put into row `y` at column `l`. */
  function RowCopied(dst: Frame, y: int, l: int, n: int, src: Frame, ys: int, ls: int): Frame
  {
    map p | p in dst ::
      var q := Point(p.x - l + ls, ys);
      if p.y == y && l <= p.x < l + n && q in src then src[q] else dst[p]
  }

  // ---------- Bytes ----------

  function PixelAt(s: seq<byte>, bpp: nat, k: nat): Pixel
    requires (k + 1) * bpp <= |s|
    requires k * bpp <= (k + 1) * bpp
  {
    s[k * bpp..(k + 1) * bpp]
  }

  lemma MulMonotone(a: int, b: int, c: nat)
    requires a <= b
    ensures a * c <= b * c
  {
  }

  /** Whole rows of `w` pixels lie between two different rows. */
  lemma RowStride(a: int, b: int, w: nat)
    requires a < b
    ensures a * w + w <= b * w
  {
    MulMonotone(a + 1, b, w);
    assert (a + 1) * w == a * w + w;
  }

  lemma IndexInside(dim: Dimension, bpp: nat, p: Point)
    requires dim.GetRect().Contains(p)
    ensures 0 <= p.y * dim.width + p.x < dim.Area()
    ensures 0 <= (p.y * dim.width + p.x) * bpp <= (p.y * dim.width + p.x + 1) * bpp <= dim.Area() * bpp
  {
    RowStride(p.y, dim.height, dim.width);
    MulMonotone(0, p.y, dim.width);
    assert dim.height * dim.width == dim.Area();
    IndexBytes(p.y * dim.width + p.x, dim.Area(), bpp);
  }

  lemma IndexBytes(k: nat, area: nat, bpp: nat)
    requires k < area
    ensures 0 <= k * bpp <= (k + 1) * bpp <= area * bpp
  {
    MulMonotone(k + 1, area, bpp);
    MulMonotone(k, k + 1, bpp);
  }

  ghost predicate Fits(s: seq<byte>, dim: Dimension, bpp: nat) {
    bpp > 0 && |s| == dim.Area() * bpp
  }

  /** The picture that the bytes `s` show. */
  ghost function ContentOf(s: seq<byte>, dim: Dimension, bpp: nat): (f: Frame)
    requires Fits(s, dim, bpp)
    ensures f.Keys == Pixels(dim.GetRect())
  {
    map p | p in Pixels(dim.GetRect()) ::
      IndexInside(dim, bpp, p);
      PixelAt(s, bpp, p.y * dim.width + p.x)
  }

  /** `after` is `before` with `len` bytes of `s` put at `pd`: one memcpy. */
  ghost predicate BytesWritten(before: seq<byte>, after: seq<byte>, pd: nat, s: seq<byte>, ps: nat, len: nat) {
    && |after| == |before| && pd + len <= |before| && ps + len <= |s|
    && forall j :: 0 <= j < |before| ==> after[j] == if pd <= j < pd + len then s[ps + (j - pd)] else before[j]
  }

  /** What a memcpy of whole pixels does to one pixel. */
  lemma PixelWritten(before: seq<byte>, after: seq<byte>, s: seq<byte>, bpp: nat, kd: nat, ks: nat, n: nat, k: nat)
    requires bpp > 0 && BytesWritten(before, after, kd * bpp, s, ks * bpp, n * bpp)
    requires k * bpp <= (k + 1) * bpp <= |before|
    ensures kd <= k < kd + n ==>
              var m := ks + (k - kd);
              0 <= m * bpp <= (m + 1) * bpp <= |s| && PixelAt(after, bpp, k) == PixelAt(s, bpp, m)
    ensures !(kd <= k < kd + n) ==> PixelAt(after, bpp, k) == PixelAt(before, bpp, k)
  {
    if kd <= k < kd + n {
      var m := ks + (k - kd);
      assert m * bpp == ks * bpp + (k * bpp - kd * bpp);
      assert (m + 1) * bpp == m * bpp + bpp && (k + 1) * bpp == k * bpp + bpp;
      MulMonotone(kd, k, bpp);
      MulMonotone(k + 1, kd + n, bpp);
      assert (kd + n) * bpp == kd * bpp + n * bpp;
      assert PixelAt(after, bpp, k) == PixelAt(s, bpp, m);
    } else if k < kd {
      MulMonotone(k + 1, kd, bpp);
    } else {
      MulMonotone(kd + n, k, bpp);
      assert (kd + n) * bpp == kd * bpp + n * bpp;
    }
  }

  /** A pixel index lies in a stretch of a row exactly when its point does. */
  lemma IndexInRow(w: int, p: Point, y: int, l: int, n: int)
    requires 0 <= p.x < w && 0 <= l && 0 <= n && l + n <= w
    ensures y * w + l <= p.y * w + p.x < y * w + l + n <==> p.y == y && l <= p.x < l + n
  {
    if p.y < y {
      RowStride(p.y, y, w);
    } else if p.y > y {
      RowStride(y, p.y, w);
    }
  }

  /** `n` pixels of row `ys` of `s` are copied over row `y` of `before`. */
  ghost predicate RowMemcpy(before: seq<byte>, after: seq<byte>, dim: Dimension, s: seq<byte>, sdim: Dimension,
                            bpp: nat, y: int, l: int, n: int, ys: int, ls: int) {
    && Fits(before, dim, bpp) && Fits(s, sdim, bpp) && |after| == |before|
    && 0 <= y < dim.height && 0 <= l && 0 <= n && l + n <= dim.width
    && 0 <= ys < sdim.height && 0 <= ls && ls + n <= sdim.width
    && var pd, ps := (y * dim.width + l) * bpp, (ys * sdim.width + ls) * bpp;
       pd >= 0 && ps >= 0 && BytesWritten(before, after, pd, s, ps, n * bpp)
  }

  /** One memcpy of a row changes the picture by one row. */
  lemma RowWritten(before: seq<byte>, after: seq<byte>, dim: Dimension, s: seq<byte>, sdim: Dimension, bpp: nat,
                   y: int, l: int, n: int, ys: int, ls: int)
    requires Fits(before, dim, bpp) && Fits(s, sdim, bpp) && Fits(after, dim, bpp)
    requires RowMemcpy(before, after, dim, s, sdim, bpp, y, l, n, ys, ls)
    ensures ContentOf(after, dim, bpp) ==
            RowCopied(ContentOf(before, dim, bpp), y, l, n, ContentOf(s, sdim, bpp), ys, ls)
  {
    hide RowMemcpy, Fits, ContentOf;
    var c, f := ContentOf(before, dim, bpp), ContentOf(s, sdim, bpp);
    forall p | p in c
      ensures ContentOf(after, dim, bpp)[p] == RowCopied(c, y, l, n, f, ys, ls)[p]
    {
      RowWrittenAt(before, after, dim, s, sdim, bpp, y, l, n, ys, ls, p);
    }
  }

  lemma RowWrittenAt(before: seq<byte>, after: seq<byte>, dim: Dimension, s: seq<byte>, sdim: Dimension, bpp: nat,
                     y: int, l: int, n: int, ys: int, ls: int, p: Point)
    requires RowMemcpy(before, after, dim, s, sdim, bpp, y, l, n, ys, ls)
    requires dim.GetRect().Contains(p)
    ensures var q, f := Point(p.x - l + ls, ys), ContentOf(s, sdim, bpp);
            ContentOf(after, dim, bpp)[p] ==
            if p.y == y && l <= p.x < l + n && q in f then f[q] else ContentOf(before, dim, bpp)[p]
  {
    var k, kd, ks := p.y * dim.width + p.x, y * dim.width + l, ys * sdim.width + ls;
    MulMonotone(0, y, dim.width);
    MulMonotone(0, ys, sdim.width);
    IndexInside(dim, bpp, p);
    PixelWritten(before, after, s, bpp, kd, ks, n, k);
    IndexInRow(dim.width, p, y, l, n);
  }

  // ---------- Comparing rows ----------

  /** Pixel `k` of the bytes, or nothing when it lies outside. */
  function Stretch(s: seq<byte>, bpp: nat, k: nat): Pixel {
    if k * bpp <= (k + 1) * bpp <= |s| then s[k * bpp..(k + 1) * bpp] else []
  }

  /** The bytes of the `n` pixels from pixel `k` on. */
  function Block(s: seq<byte>, bpp: nat, k: nat, n: nat): seq<byte> {
    if k * bpp + n * bpp <= |s| then s[k * bpp..k * bpp + n * bpp] else []
  }

  lemma SplitBlock(s: seq<byte>, bpp: nat, k: nat, n: nat)
    requires k * bpp + (n + 1) * bpp <= |s|
    ensures k * bpp + n * bpp <= |s|
    ensures Block(s, bpp, k, n + 1) == Block(s, bpp, k, n) + Stretch(s, bpp, k + n)
    ensures |Block(s, bpp, k, n)| == n * bpp
  {
    Distribute(n, 1, bpp);
    Distribute(k, n, bpp);
    Distribute(k + n, 1, bpp);
    MulMonotone(0, n, bpp);
    SplitSlice(s, k * bpp, n * bpp, bpp);
  }

  lemma Distribute(a: int, b: int, c: int)
    ensures (a + b) * c == a * c + b * c
  {
  }

  lemma SplitSlice(s: seq<byte>, at: nat, first: nat, second: nat)
    requires at + first + second <= |s|
    ensures s[at..at + first + second] == s[at..at + first] + s[at + first..at + first + second]
  {
  }

  ghost predicate SameStretch(s: seq<byte>, t: seq<byte>, bpp: nat, ks: nat, kt: nat, x: nat) {
    Stretch(s, bpp, ks + x) == Stretch(t, bpp, kt + x)
  }

  lemma {:induction false} BlockCompared(s: seq<byte>, t: seq<byte>, bpp: nat, ks: nat, kt: nat, n: nat)
    requires ks * bpp + n * bpp <= |s| && kt * bpp + n * bpp <= |t|
    ensures Block(s, bpp, ks, n) == Block(t, bpp, kt, n) <==>
            forall x :: 0 <= x < n ==> SameStretch(s, t, bpp, ks, kt, x)
  {
    if n > 0 {
      var m := n - 1;
      SplitBlock(s, bpp, ks, m);
      SplitBlock(t, bpp, kt, m);
      BlockCompared(s, t, bpp, ks, kt, m);
      var a, b := Block(s, bpp, ks, m), Block(t, bpp, kt, m);
      var c, d := Stretch(s, bpp, ks + m), Stretch(t, bpp, kt + m);
      assert (a + c)[..|a|] == a && (a + c)[|a|..] == c && (b + d)[..|b|] == b && (b + d)[|b|..] == d;
      assert SameStretch(s, t, bpp, ks, kt, m) <==> c == d;
    }
  }

  lemma BlockInside(dim: Dimension, bpp: nat, y: int, l: int, n: int)
    requires 0 <= y < dim.height && 0 <= l && 0 <= n && l + n <= dim.width
    ensures 0 <= y * dim.width + l
    ensures 0 <= (y * dim.width + l) * bpp <= (y * dim.width + l) * bpp + n * bpp <= dim.Area() * bpp
  {
    RowStride(y, dim.height, dim.width);
    MulMonotone(0, y, dim.width);
    assert dim.height * dim.width == dim.Area() || dim.width == 0;
    var k := y * dim.width + l;
    MulMonotone(0, k, bpp);
    MulMonotone(k + n, dim.Area(), bpp);
    assert (k + n) * bpp == k * bpp + n * bpp;
    MulMonotone(0, n, bpp);
  }

  lemma PixelIsStretch(s: seq<byte>, dim: Dimension, bpp: nat, p: Point)
    requires Fits(s, dim, bpp) && dim.GetRect().Contains(p)
    ensures p.y * dim.width + p.x >= 0
    ensures ContentOf(s, dim, bpp)[p] == Stretch(s, bpp, p.y * dim.width + p.x)
  {
    IndexInside(dim, bpp, p);
  }

  /** `n` pixels of row `y`, from column `l` on, equal those shifted by `d`. */
  ghost predicate SameRow(f: Frame, g: Frame, y: int, l: int, n: int, d: Point) {
    forall p: Point :: p in f && p.y == y && l <= p.x < l + n ==> Plus(p, d) in g && f[p] == g[Plus(p, d)]
  }

  /** A memcmp of a row compares its pixels. */
  lemma RowCompared(s: seq<byte>, dim: Dimension, t: seq<byte>, tdim: Dimension, bpp: nat,
                    y: int, l: int, n: int, yt: int, lt: int)
    requires Fits(s, dim, bpp) && Fits(t, tdim, bpp)
    requires 0 <= y < dim.height && 0 <= l && 0 <= n && l + n <= dim.width
    requires 0 <= yt < tdim.height && 0 <= lt && lt + n <= tdim.width
    ensures var ks, kt := y * dim.width + l, yt * tdim.width + lt;
            && 0 <= ks * bpp <= ks * bpp + n * bpp <= |s| && 0 <= kt * bpp <= kt * bpp + n * bpp <= |t|
            && (s[ks * bpp..ks * bpp + n * bpp] == t[kt * bpp..kt * bpp + n * bpp] <==>
                  SameRow(ContentOf(s, dim, bpp), ContentOf(t, tdim, bpp), y, l, n, Point(lt - l, yt - y)))
  {
    hide ContentOf, SameRow;
    BlockInside(dim, bpp, y, l, n);
    BlockInside(tdim, bpp, yt, lt, n);
    var ks, kt := y * dim.width + l, yt * tdim.width + lt;
    BlockCompared(s, t, bpp, ks, kt, n);
    RowAsStretches(s, dim, t, tdim, bpp, y, l, n, yt, lt, ks, kt);
  }

  lemma RowAsStretches(s: seq<byte>, dim: Dimension, t: seq<byte>, tdim: Dimension, bpp: nat,
                       y: int, l: int, n: int, yt: int, lt: int, ks: nat, kt: nat)
    requires Fits(s, dim, bpp) && Fits(t, tdim, bpp)
    requires 0 <= y < dim.height && 0 <= l && 0 <= n && l + n <= dim.width
    requires 0 <= yt < tdim.height && 0 <= lt && lt + n <= tdim.width
    requires ks == y * dim.width + l && kt == yt * tdim.width + lt
    ensures SameRow(ContentOf(s, dim, bpp), ContentOf(t, tdim, bpp), y, l, n, Point(lt - l, yt - y)) <==>
            forall x :: 0 <= x < n ==> SameStretch(s, t, bpp, ks, kt, x)
  {
    hide ContentOf, SameStretch, Fits;
    var f, g, d := ContentOf(s, dim, bpp), ContentOf(t, tdim, bpp), Point(lt - l, yt - y);
    forall x | 0 <= x < n
      ensures var p := Point(l + x, y);
              p in f && Plus(p, d) in g && (SameStretch(s, t, bpp, ks, kt, x) <==> f[p] == g[Plus(p, d)])
    {
      PixelAsStretch(s, dim, t, tdim, bpp, y, l, yt, lt, ks, kt, x);
    }
    if SameRow(f, g, y, l, n, d) {
      forall x | 0 <= x < n ensures SameStretch(s, t, bpp, ks, kt, x) {
        assert Point(l + x, y) in f;
      }
    }
    if forall x :: 0 <= x < n ==> SameStretch(s, t, bpp, ks, kt, x) {
      forall p: Point | p in f && p.y == y && l <= p.x < l + n ensures Plus(p, d) in g && f[p] == g[Plus(p, d)] {
        assert SameStretch(s, t, bpp, ks, kt, p.x - l);
        assert p == Point(l + (p.x - l), y);
      }
    }
  }

  lemma PixelAsStretch(s: seq<byte>, dim: Dimension, t: seq<byte>, tdim: Dimension, bpp: nat,
                       y: int, l: int, yt: int, lt: int, ks: nat, kt: nat, x: int)
    requires Fits(s, dim, bpp) && Fits(t, tdim, bpp)
    requires 0 <= y < dim.height && 0 <= l && 0 <= x && l + x < dim.width
    requires 0 <= yt < tdim.height && 0 <= lt && lt + x < tdim.width
    requires ks == y * dim.width + l && kt == yt * tdim.width + lt
    ensures var p, q := Point(l + x, y), Point(lt + x, yt);
            && p in ContentOf(s, dim, bpp) && q in ContentOf(t, tdim, bpp)
            && (SameStretch(s, t, bpp, ks, kt, x) <==> ContentOf(s, dim, bpp)[p] == ContentOf(t, tdim, bpp)[q])
  {
    hide ContentOf, Fits;
    PixelIsStretch(s, dim, bpp, Point(l + x, y));
    PixelIsStretch(t, tdim, bpp, Point(lt + x, yt));
  }
}
