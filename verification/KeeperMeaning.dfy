/** What a container of pending updates means, and when merging keeps it.

    A container describes the step from an old image to the current one when
    every border pixel outside its changed region shows the old pixel, or, in
    the copied region, the old pixel at the copy's source.  This is what a
    viewer needs: CopyRect (section 7.7.2 of RFC 6143) for the copied region,
    then fresh pixels for the changed one. */
module KeeperMeaning {
  import opened Geometry
  import opened UpdateKeepers

  type Image = Point -> int

  ghost predicate WellFormed(c: UpdateContainer) {
    c.copiedRegion == {} || IsRect(c.copiedRegion)
  }

  ghost predicate WithinBorder(c: UpdateContainer, border: Rect) {
    forall p :: p in c.Dirty() ==> border.Contains(p)
  }

  /** The old pixel that the copy brings to `p`. */
  ghost function Origin(c: UpdateContainer, p: Point): Point
    requires IsRect(c.copiedRegion)
  {
    Plus(Minus(p, TheRect(c.copiedRegion).TopLeft()), c.copySrc)
  }

  ghost predicate Describes(c: UpdateContainer, border: Rect, before: Image, now: Image)
    requires WellFormed(c)
  {
    forall p :: border.Contains(p) && p !in c.changedRegion ==>
      now(p) == if p in c.copiedRegion then before(Origin(c, p)) else before(p)
  }

  // ---------- What the screen did before an operation was called ----------

  /** Only pixels of `region` were redrawn. */
  ghost predicate Redrawn(border: Rect, region: Region, now: Image, next: Image) {
    forall p :: border.Contains(p) && p !in region ==> next(p) == now(p)
  }

  /** `rect` was copied from `src`.  What came from outside the border is
      unknown, so such pixels may have got any value. */
  ghost predicate CopiedFrom(border: Rect, rect: Rect, src: Point, now: Image, next: Image) {
    forall p :: border.Contains(p) ==>
      var q := Minus(p, CopyShift(rect, src));
      if !rect.Contains(p) then next(p) == now(p) else border.Contains(q) ==> next(p) == now(q)
  }

  // ---------- One operation ----------

  lemma LandingIsRect(border: Rect, rect: Rect, src: Point)
    ensures var dst := LandingRect(border, rect, src);
            !dst.IsEmpty() ==> IsRect(Pixels(dst)) && TheRect(Pixels(dst)) == dst && Pixels(dst) != {}
    ensures forall p :: p in Pixels(LandingRect(border, rect, src)) <==>
              rect.Contains(p) && border.Contains(p) && border.Contains(Minus(p, CopyShift(rect, src)))
  {
    var dst := LandingRect(border, rect, src);
    if !dst.IsEmpty() {
      TheRectOfPixels(dst);
      assert dst.TopLeft() in Pixels(dst);
    }
  }

  lemma AddCopyWellFormed(c: UpdateContainer, border: Rect, rect: Rect, src: Point)
    requires WellFormed(c)
    ensures WellFormed(AddCopy(c, border, rect, src))
  {
    LandingIsRect(border, rect, src);
  }

  predicate StaleAt(c: UpdateContainer, border: Rect, rect: Rect, dst: Rect, p: Point) {
    border.Contains(p) && (p in c.changedRegion || rect.Contains(p)) && !dst.Contains(p)
  }

  /** `AddCopy` pixel by pixel, for a copy that lands. */
  lemma AddCopyAt(c: UpdateContainer, border: Rect, rect: Rect, src: Point, p: Point)
    requires !LandingRect(border, rect, src).IsEmpty()
    ensures var dst, d, c' := LandingRect(border, rect, src), CopyShift(rect, src), AddCopy(c, border, rect, src);
            && (dst.Contains(p) <==> rect.Contains(p) && border.Contains(p) && border.Contains(Minus(p, d)))
            && (c.copiedRegion != {} ==>
                  && (p in c'.changedRegion <==>
                       border.Contains(p) && (p in c.changedRegion || p in c.copiedRegion || rect.Contains(p)))
                  && p !in c'.copiedRegion)
            && (c.copiedRegion == {} ==>
                  && (p in c'.changedRegion <==>
                       StaleAt(c, border, rect, dst, p) ||
                       (dst.Contains(p) && StaleAt(c, border, rect, dst, Minus(p, d))))
                  && (p in c'.copiedRegion <==> dst.Contains(p)))
  {
  }

  /** When the copy is recorded at all and no copy was pending, the pixels
      that are not marked as changed are exactly those the record explains. */
  lemma AddCopyOrigin(c: UpdateContainer, border: Rect, rect: Rect, src: Point, p: Point)
    requires c.copiedRegion == {} && p in Pixels(LandingRect(border, rect, src))
    ensures var c' := AddCopy(c, border, rect, src);
            && IsRect(c'.copiedRegion) && p in c'.copiedRegion
            && Origin(c', p) == Minus(p, CopyShift(rect, src))
  {
    LandingIsRect(border, rect, src);
  }

  /** The condition under which `addCopyRect` keeps the meaning, in terms a
      caller can check: a copy that lands nowhere must not hit clean pixels of
      the border, and a first copy must not have a dirty pixel where its source
      and its destination overlap. */
  predicate CopyIsSafe(c: UpdateContainer, border: Rect, rect: Rect, src: Point) {
    var dst := LandingRect(border, rect, src);
    if dst.IsEmpty() then
      Crop(Pixels(rect), border) <= c.changedRegion
    else
      c.copiedRegion != {} || Translate(c.changedRegion * Pixels(dst), CopyShift(rect, src)) !! Pixels(dst)
  }

  lemma AddChangedKeepsMeaning(c: UpdateContainer, border: Rect, region: Region, before: Image, now: Image, next: Image)
    requires WellFormed(c) && Describes(c, border, before, now) && Redrawn(border, region, now, next)
    ensures Describes(AddChanged(c, border, region), border, before, next)
  {
    var c' := AddChanged(c, border, region);
    forall p | border.Contains(p) && p !in c'.changedRegion
      ensures next(p) == if p in c'.copiedRegion then before(Origin(c', p)) else before(p)
    {
      assert p !in c.changedRegion && p !in region;
      if p in c.copiedRegion {
        assert Origin(c', p) == Origin(c, p);
      }
    }
  }

  lemma AddCopyKeepsMeaning(c: UpdateContainer, border: Rect, rect: Rect, src: Point, before: Image, now: Image,
                            next: Image)
    requires WellFormed(c) && Describes(c, border, before, now) && CopiedFrom(border, rect, src, now, next)
    requires CopyIsSafe(c, border, rect, src)
    ensures WellFormed(AddCopy(c, border, rect, src))
    ensures Describes(AddCopy(c, border, rect, src), border, before, next)
  {
    AddCopyWellFormed(c, border, rect, src);
    var c', dst := AddCopy(c, border, rect, src), LandingRect(border, rect, src);
    forall p | border.Contains(p) && p !in c'.changedRegion
      ensures next(p) == if p in c'.copiedRegion then before(Origin(c', p)) else before(p)
    {
      if dst.IsEmpty() {
        assert !rect.Contains(p) by {
          assert p !in Crop(Pixels(rect), border);
        }
      } else {
        AddCopyAt(c, border, rect, src, p);
        if c.copiedRegion == {} && dst.Contains(p) {
          AddCopyOrigin(c, border, rect, src, p);
          UnmarkedSourceIsClean(c, border, rect, src, p);
        }
      }
    }
  }

  /** A landing pixel that stays unmarked has a clean source, if no dirty pixel
      is in the overlap. */
  lemma UnmarkedSourceIsClean(c: UpdateContainer, border: Rect, rect: Rect, src: Point, p: Point)
    requires c.copiedRegion == {} && CopyIsSafe(c, border, rect, src)
    requires p in Pixels(LandingRect(border, rect, src)) && p !in AddCopy(c, border, rect, src).changedRegion
    ensures Minus(p, CopyShift(rect, src)) !in c.changedRegion
  {
    var dst, d := LandingRect(border, rect, src), CopyShift(rect, src);
    AddCopyAt(c, border, rect, src, p);
    assert Minus(p, d) in c.changedRegion * Pixels(dst) ==> p in Translate(c.changedRegion * Pixels(dst), d);
  }

  // ---------- The condition is exact ----------

  ghost predicate KeepsMeaning(c: UpdateContainer, border: Rect, rect: Rect, src: Point) {
    && WellFormed(c) && WellFormed(AddCopy(c, border, rect, src))
    && forall before: Image, now: Image, next: Image ::
      Describes(c, border, before, now) && CopiedFrom(border, rect, src, now, next) ==>
      Describes(AddCopy(c, border, rect, src), border, before, next)
  }

  /** `addCopyRect` keeps the meaning for all images if and only if the copy is safe. */
  lemma AddCopyKeepsMeaningIffSafe(c: UpdateContainer, border: Rect, rect: Rect, src: Point)
    requires WellFormed(c)
    ensures KeepsMeaning(c, border, rect, src) <==> CopyIsSafe(c, border, rect, src)
  {
    AddCopyWellFormed(c, border, rect, src);
    if CopyIsSafe(c, border, rect, src) {
      forall before: Image, now: Image, next: Image |
        Describes(c, border, before, now) && CopiedFrom(border, rect, src, now, next)
        ensures Describes(AddCopy(c, border, rect, src), border, before, next)
      {
        AddCopyKeepsMeaning(c, border, rect, src, before, now, next);
      }
    } else if LandingRect(border, rect, src).IsEmpty() {
      UnmarkedArrival(c, border, rect, src);
    } else {
      LostDirtyPixel(c, border, rect, src);
    }
  }

  const BLANK: Image := (p: Point) => 0

  function Spot(q: Point): Image {
    (p: Point) => if p == q then 1 else 0
  }

  /** A copy whose source lies outside the border is dropped, although it
      overwrote clean pixels. */
  lemma UnmarkedArrival(c: UpdateContainer, border: Rect, rect: Rect, src: Point)
    requires WellFormed(c) && WellFormed(AddCopy(c, border, rect, src))
    requires LandingRect(border, rect, src).IsEmpty() && !CopyIsSafe(c, border, rect, src)
    ensures !KeepsMeaning(c, border, rect, src)
  {
    LandingIsRect(border, rect, src);
    var p :| p in Crop(Pixels(rect), border) && p !in c.changedRegion;
    assert p !in Pixels(LandingRect(border, rect, src));
    assert Describes(c, border, BLANK, BLANK);
    assert CopiedFrom(border, rect, src, BLANK, Spot(p));
    assert !Describes(c, border, BLANK, Spot(p)) by {
      assert Spot(p)(p) == 1;
    }
  }

  /** A dirty pixel in the overlap is forgotten before it is carried along. */
  lemma LostDirtyPixel(c: UpdateContainer, border: Rect, rect: Rect, src: Point)
    requires WellFormed(c) && WellFormed(AddCopy(c, border, rect, src))
    requires !LandingRect(border, rect, src).IsEmpty() && !CopyIsSafe(c, border, rect, src)
    ensures !KeepsMeaning(c, border, rect, src)
  {
    var dst, d := LandingRect(border, rect, src), CopyShift(rect, src);
    var p :| p in Translate(c.changedRegion * Pixels(dst), d) && p in Pixels(dst);
    LostDirtyPixelAt(c, border, rect, src, p);
  }

  lemma LostDirtyPixelAt(c: UpdateContainer, border: Rect, rect: Rect, src: Point, p: Point)
    requires c.copiedRegion == {} && WellFormed(AddCopy(c, border, rect, src))
    requires LandingRect(border, rect, src).Contains(p) && Minus(p, CopyShift(rect, src)) in c.changedRegion
    requires LandingRect(border, rect, src).Contains(Minus(p, CopyShift(rect, src)))
    ensures !KeepsMeaning(c, border, rect, src)
  {
    var d := CopyShift(rect, src);
    var c', now := AddCopy(c, border, rect, src), Spot(Minus(p, d));
    var next := Shifted(rect, d, now);
    AddCopyAt(c, border, rect, src, p);
    AddCopyOrigin(c, border, rect, src, p);
    SpotIsDescribed(c, border, Minus(p, d));
    ShiftedIsCopied(border, rect, src, now);
    NotDescribed(c', border, BLANK, next, p);
  }

  /** The image after copying into `rect` from `d` before it. */
  function Shifted(rect: Rect, d: Point, now: Image): Image {
    (p: Point) => if rect.Contains(p) then now(Minus(p, d)) else now(p)
  }

  lemma ShiftedIsCopied(border: Rect, rect: Rect, src: Point, now: Image)
    ensures CopiedFrom(border, rect, src, now, Shifted(rect, CopyShift(rect, src), now))
  {
  }

  lemma SpotIsDescribed(c: UpdateContainer, border: Rect, q: Point)
    requires c.copiedRegion == {} && q in c.changedRegion
    ensures Describes(c, border, BLANK, Spot(q))
  {
  }

  lemma NotDescribed(c: UpdateContainer, border: Rect, before: Image, now: Image, p: Point)
    requires WellFormed(c) && p in c.copiedRegion && p !in c.changedRegion && border.Contains(p)
    requires now(p) != before(Origin(c, p))
    ensures !Describes(c, border, before, now)
  {
  }

  lemma OverlapLanding(border: Rect, rect: Rect, src: Point)
    requires border == Rect(0, 0, 3, 1) && rect == Rect(1, 0, 3, 1) && src == Point(0, 0)
    ensures LandingRect(border, rect, src) == rect
    ensures rect.Contains(Point(1, 0)) && rect.Contains(Point(2, 0)) &&
            Minus(Point(2, 0), CopyShift(rect, src)) == Point(1, 0)
  {
    var d := CopyShift(rect, src);
    assert d == Point(1, 0);
    assert rect.Intersection(border) == rect;
    assert border.Move(d.x, d.y) == Rect(1, 0, 4, 1);
    assert rect.Intersection(border.Move(d.x, d.y)) == rect;
  }

  /** The overlap defect on one concrete input: a row of three pixels, the
      middle one dirty, moved right by one pixel. */
  lemma OverlapCounterexample(border: Rect, rect: Rect, src: Point, c: UpdateContainer)
    requires border == Rect(0, 0, 3, 1) && rect == Rect(1, 0, 3, 1) && src == Point(0, 0)
    requires c.copiedRegion == {} && Point(1, 0) in c.changedRegion
    ensures !KeepsMeaning(c, border, rect, src)
  {
    hide LandingRect, KeepsMeaning, CopyShift, Minus, Rect.Contains, WellFormed;
    OverlapLanding(border, rect, src);
    LostOverlap(c, border, rect, src, rect, Point(1, 0), Point(2, 0));
  }

  lemma LostOverlap(c: UpdateContainer, border: Rect, rect: Rect, src: Point, dst: Rect, q: Point, p: Point)
    requires c.copiedRegion == {} && q in c.changedRegion && LandingRect(border, rect, src) == dst
    requires q == Minus(p, CopyShift(rect, src)) && dst.Contains(p) && dst.Contains(q)
    ensures !KeepsMeaning(c, border, rect, src)
  {
    AddCopyWellFormed(c, border, rect, src);
    LostDirtyPixelAt(c, border, rect, src, p);
  }

  // ---------- The repaired order: carry first, then remove ----------

  /** `addCopyRect` with the two middle steps exchanged. */
  function AddCopyRepaired(c: UpdateContainer, border: Rect, rect: Rect, src: Point): UpdateContainer {
    var dst := LandingRect(border, rect, src);
    var d := CopyShift(rect, src);
    if dst.IsEmpty() || c.copiedRegion != {} then
      AddCopy(c, border, rect, src)
    else
      var marked := Crop(c.changedRegion + (Pixels(rect) - Pixels(dst)), border);
      c.(copySrc := Minus(dst.TopLeft(), d),
         copiedRegion := Pixels(dst),
         changedRegion := (marked - Pixels(dst)) + Translate(marked, d) * Pixels(dst))
  }

  lemma AddCopyRepairedAt(c: UpdateContainer, border: Rect, rect: Rect, src: Point, p: Point)
    requires !LandingRect(border, rect, src).IsEmpty() && c.copiedRegion == {}
    requires p !in AddCopyRepaired(c, border, rect, src).changedRegion && border.Contains(p)
    ensures var dst, d := LandingRect(border, rect, src), CopyShift(rect, src);
            if dst.Contains(p) then Minus(p, d) !in c.changedRegion && rect.Contains(p) && border.Contains(Minus(p, d))
            else p !in c.changedRegion && !rect.Contains(p)
  {
  }

  /** The repaired order needs no condition on the overlap. */
  lemma RepairedKeepsMeaning(c: UpdateContainer, border: Rect, rect: Rect, src: Point, before: Image, now: Image,
                             next: Image)
    requires WellFormed(c) && Describes(c, border, before, now) && CopiedFrom(border, rect, src, now, next)
    requires LandingRect(border, rect, src).IsEmpty() ==> Crop(Pixels(rect), border) <= c.changedRegion
    ensures WellFormed(AddCopyRepaired(c, border, rect, src))
    ensures Describes(AddCopyRepaired(c, border, rect, src), border, before, next)
  {
    var dst := LandingRect(border, rect, src);
    if dst.IsEmpty() || c.copiedRegion != {} {
      AddCopyKeepsMeaning(c, border, rect, src, before, now, next);
      return;
    }
    TheRectOfPixels(dst);
    var c' := AddCopyRepaired(c, border, rect, src);
    forall p | border.Contains(p) && p !in c'.changedRegion
      ensures next(p) == if p in c'.copiedRegion then before(Origin(c', p)) else before(p)
    {
      AddCopyRepairedAt(c, border, rect, src, p);
      assert p in c'.copiedRegion ==> Origin(c', p) == Minus(p, CopyShift(rect, src));
    }
  }

  // ---------- The dirty set ----------

  /** Recording a copy adds exactly the copied rectangle's part inside the border. */
  lemma AddCopyDirtySet(c: UpdateContainer, border: Rect, rect: Rect, src: Point)
    requires WithinBorder(c, border)
    ensures WithinBorder(AddCopy(c, border, rect, src), border)
    ensures AddCopy(c, border, rect, src).Dirty() ==
            if LandingRect(border, rect, src).IsEmpty() then c.Dirty() else c.Dirty() + Crop(Pixels(rect), border)
  {
    var c' := AddCopy(c, border, rect, src);
    if !LandingRect(border, rect, src).IsEmpty() {
      forall p
        ensures p in c'.Dirty() <==> p in c.Dirty() || p in Crop(Pixels(rect), border)
        ensures p in c'.Dirty() ==> border.Contains(p)
      {
        assert p in c.Dirty() ==> border.Contains(p);
        AddCopyAt(c, border, rect, src, p);
      }
    }
  }

  lemma AddChangedDirtySet(c: UpdateContainer, border: Rect, region: Region)
    requires WithinBorder(c, border)
    ensures WithinBorder(AddChanged(c, border, region), border)
    ensures AddChanged(c, border, region).Dirty() == c.Dirty() + Crop(region, border)
  {
  }

  /** Merging adds the other container's changes and, if the copy lands, its first
      copied rectangle; further copied rectangles are not taken over. */
  lemma AddContainerDirtySet(c: UpdateContainer, border: Rect, other: UpdateContainer, rects: seq<Rect>)
    requires WithinBorder(c, border)
    ensures WithinBorder(AddContainer(c, border, other, rects), border)
    ensures AddContainer(c, border, other, rects).Dirty() ==
            c.Dirty() + Crop(other.changedRegion, border) +
            if rects == [] || LandingRect(border, rects[0], other.copySrc).IsEmpty() then {}
            else Crop(Pixels(rects[0]), border)
  {
    hide AddCopy, LandingRect;
    var copied := if rects == [] then c else AddCopy(c, border, rects[0], other.copySrc);
    if rects != [] {
      AddCopyDirtySet(c, border, rects[0], other.copySrc);
    }
    AddChangedDirtySet(copied, border, other.changedRegion);
  }

  // ---------- Merged containers ----------

  /** Where the container takes the pixel from. */
  ghost function OriginOf(c: UpdateContainer, p: Point): Point
    requires WellFormed(c)
  {
    if p in c.copiedRegion then Origin(c, p) else p
  }

  /** Where a list of copied rectangles takes the pixel from, each of them from
      the same source point. */
  function OriginIn(rects: seq<Rect>, src: Point, p: Point): Point {
    if rects == [] then p
    else if rects[0].Contains(p) then Plus(Minus(p, rects[0].TopLeft()), src)
    else OriginIn(rects[1..], src, p)
  }

  /** `Describes` for a container whose copied region is listed as `rects`. */
  ghost predicate DescribesEach(c: UpdateContainer, rects: seq<Rect>, border: Rect, before: Image, now: Image) {
    forall p :: border.Contains(p) && p !in c.changedRegion ==> now(p) == before(OriginIn(rects, c.copySrc, p))
  }

  /** For at most one rectangle both are the same. */
  lemma DescribesEachIff(c: UpdateContainer, rects: seq<Rect>, border: Rect, before: Image, now: Image)
    requires WellFormed(c) && IsRectVector(rects, c.copiedRegion)
    ensures DescribesEach(c, rects, border, before, now) <==> Describes(c, border, before, now)
  {
    if c.copiedRegion == {} {
      FirstCorner(rects, c.copiedRegion);
      assert forall p :: OriginIn(rects, c.copySrc, p) == p;
    } else {
      assert rects == [TheRect(c.copiedRegion)];
      forall p ensures OriginIn(rects, c.copySrc, p) == OriginOf(c, p) {
        assert p in c.copiedRegion <==> rects[0].Contains(p);
      }
    }
  }

  /** A merge keeps the meaning: what `c` and then `other` did is what the merged
      container describes, whatever the images are. */
  ghost predicate MergeKeepsMeaning(c: UpdateContainer, border: Rect, other: UpdateContainer, rects: seq<Rect>) {
    && WellFormed(c) && WellFormed(AddContainer(c, border, other, rects))
    && forall before: Image, now: Image, next: Image ::
      Describes(c, border, before, now) && DescribesEach(other, rects, border, now, next) ==>
      Describes(AddContainer(c, border, other, rects), border, before, next)
  }

  /** The condition on the first copied rectangle: if it lands nowhere, the pixels
      it hits are dirty in either container, and if it is kept, a dirty pixel in
      the overlap of source and destination is carried to one that the other
      container marks. */
  predicate FirstIsSafe(c: UpdateContainer, border: Rect, other: UpdateContainer, rect: Rect) {
    var dst := LandingRect(border, rect, other.copySrc);
    var d := CopyShift(rect, other.copySrc);
    if dst.IsEmpty() then
      Crop(Pixels(rect), border) <= c.changedRegion + other.changedRegion
    else
      c.copiedRegion != {} || Translate(c.changedRegion * Pixels(dst), d) * Pixels(dst) <= other.changedRegion
  }

  predicate FirstLands(border: Rect, other: UpdateContainer, rects: seq<Rect>) {
    rects != [] && !LandingRect(border, rects[0], other.copySrc).IsEmpty()
  }

  /** The condition on a pixel of a further copied rectangle, which the merge
      drops: it is marked anyway, or it comes from a clean pixel of the border that
      has the same origin. */
  ghost predicate FurtherIsSafe(c: UpdateContainer, border: Rect, other: UpdateContainer, rects: seq<Rect>, p: Point)
    requires WellFormed(c)
  {
    var q, lands := OriginIn(rects, other.copySrc, p), FirstLands(border, other, rects);
    || p in c.changedRegion + other.changedRegion || (lands && p in c.copiedRegion)
    || (border.Contains(q) && q !in c.changedRegion && OriginOf(c, q) == if lands then p else OriginOf(c, p))
  }

  predicate IsFurther(rects: seq<Rect>, p: Point) {
    exists i :: 1 <= i < |rects| && rects[i].Contains(p) && !rects[0].Contains(p)
  }

  /** The condition under which a merge keeps the meaning, before it is made. */
  ghost predicate MergeIsSafe(c: UpdateContainer, border: Rect, other: UpdateContainer, rects: seq<Rect>)
    requires WellFormed(c)
  {
    && (rects != [] ==> FirstIsSafe(c, border, other, rects[0]))
    && forall p :: border.Contains(p) && IsFurther(rects, p) ==> FurtherIsSafe(c, border, other, rects, p)
  }

  /** A pixel that the merge leaves unmarked comes from a clean pixel of the
      border, and the merged container traces it to the same old pixel as the two
      containers in turn. */
  ghost predicate TracesAt(c: UpdateContainer, border: Rect, other: UpdateContainer, rects: seq<Rect>, p: Point)
    requires WellFormed(c) && WellFormed(AddContainer(c, border, other, rects))
  {
    var merged, q := AddContainer(c, border, other, rects), OriginIn(rects, other.copySrc, p);
    p in merged.changedRegion || (border.Contains(q) && q !in c.changedRegion && OriginOf(merged, p) == OriginOf(c, q))
  }

  ghost predicate MergeTraces(c: UpdateContainer, border: Rect, other: UpdateContainer, rects: seq<Rect>)
    requires WellFormed(c) && WellFormed(AddContainer(c, border, other, rects))
  {
    forall p :: border.Contains(p) ==> TracesAt(c, border, other, rects, p)
  }

  lemma {:induction false} OriginOfNone(rects: seq<Rect>, src: Point, p: Point)
    requires forall i :: 0 <= i < |rects| ==> !rects[i].Contains(p)
    ensures OriginIn(rects, src, p) == p
  {
    if rects != [] {
      OriginOfNone(rects[1..], src, p);
    }
  }

  /** The merged container, pixel by pixel. */
  lemma AddContainerAt(c: UpdateContainer, border: Rect, other: UpdateContainer, rects: seq<Rect>, p: Point)
    requires WellFormed(c) && border.Contains(p)
    ensures var copied := if rects == [] then c else AddCopy(c, border, rects[0], other.copySrc);
            var merged := AddContainer(c, border, other, rects);
            && (p in merged.changedRegion <==> p in copied.changedRegion + other.changedRegion)
            && merged.copiedRegion == copied.copiedRegion && merged.copySrc == copied.copySrc
            && WellFormed(merged) && WellFormed(copied) && OriginOf(merged, p) == OriginOf(copied, p)
  {
    hide AddCopy, IsRect;
    if rects != [] {
      AddCopyWellFormed(c, border, rects[0], other.copySrc);
    }
  }

  /** A pixel of the first rectangle. */
  lemma FirstTracesIff(c: UpdateContainer, border: Rect, other: UpdateContainer, rects: seq<Rect>, p: Point)
    requires WellFormed(c) && border.Contains(p) && rects != [] && rects[0].Contains(p)
    ensures WellFormed(AddContainer(c, border, other, rects))
    ensures var rect, q := rects[0], Minus(p, CopyShift(rects[0], other.copySrc));
            var dst := LandingRect(border, rect, other.copySrc);
            TracesAt(c, border, other, rects, p) <==>
              if dst.IsEmpty() then p in c.changedRegion + other.changedRegion
              else c.copiedRegion != {} || p in other.changedRegion ||
                   !(dst.Contains(p) && dst.Contains(q) && q in c.changedRegion)
  {
    hide AddContainer, AddCopy, LandingRect;
    var rect, q := rects[0], Minus(p, CopyShift(rects[0], other.copySrc));
    AddContainerAt(c, border, other, rects, p);
    assert OriginIn(rects, other.copySrc, p) == q;
    LandingIsRect(border, rect, other.copySrc);
    if LandingRect(border, rect, other.copySrc).IsEmpty() {
      NothingKept(c, border, rect, other.copySrc);
      assert p !in Pixels(LandingRect(border, rect, other.copySrc));
    } else {
      AddCopyAt(c, border, rect, other.copySrc, p);
      if c.copiedRegion == {} && p in Pixels(LandingRect(border, rect, other.copySrc)) {
        AddCopyOrigin(c, border, rect, other.copySrc, p);
      }
    }
  }

  lemma NothingKept(c: UpdateContainer, border: Rect, rect: Rect, src: Point)
    requires LandingRect(border, rect, src).IsEmpty()
    ensures AddCopy(c, border, rect, src) == c
  {
  }

  /** Any other pixel. */
  lemma OtherTracesIff(c: UpdateContainer, border: Rect, other: UpdateContainer, rects: seq<Rect>, p: Point)
    requires WellFormed(c) && border.Contains(p) && (rects != [] ==> !rects[0].Contains(p))
    ensures WellFormed(AddContainer(c, border, other, rects))
    ensures TracesAt(c, border, other, rects, p) <==> FurtherIsSafe(c, border, other, rects, p)
  {
    hide AddContainer, AddCopy, LandingRect;
    AddContainerAt(c, border, other, rects, p);
    if rects != [] {
      LandingIsRect(border, rects[0], other.copySrc);
      if FirstLands(border, other, rects) {
        AddCopyAt(c, border, rects[0], other.copySrc, p);
      } else {
        NothingKept(c, border, rects[0], other.copySrc);
      }
    }
  }

  /** A pixel that no rectangle holds keeps its place. */
  lemma UntouchedIsSafe(c: UpdateContainer, border: Rect, other: UpdateContainer, rects: seq<Rect>, p: Point)
    requires WellFormed(c) && border.Contains(p) && !IsFurther(rects, p) && (rects != [] ==> !rects[0].Contains(p))
    ensures FurtherIsSafe(c, border, other, rects, p)
  {
    hide LandingRect, IsRect;
    OriginOfNone(rects, other.copySrc, p);
  }

  lemma MergeTracesIffSafe(c: UpdateContainer, border: Rect, other: UpdateContainer, rects: seq<Rect>)
    requires WellFormed(c)
    ensures WellFormed(AddContainer(c, border, other, rects))
    ensures MergeTraces(c, border, other, rects) <==> MergeIsSafe(c, border, other, rects)
  {
    hide TracesAt, FurtherIsSafe, FirstIsSafe, AddContainer, LandingRect, IsFurther, OriginIn;
    AddContainerWellFormed(c, border, other, rects);
    forall p | border.Contains(p) && (rects != [] ==> !rects[0].Contains(p))
      ensures TracesAt(c, border, other, rects, p) <==> FurtherIsSafe(c, border, other, rects, p)
      ensures !IsFurther(rects, p) ==> FurtherIsSafe(c, border, other, rects, p)
    {
      OtherTracesIff(c, border, other, rects, p);
      if !IsFurther(rects, p) {
        UntouchedIsSafe(c, border, other, rects, p);
      }
    }
    FurtherIsNotFirst(rects);
    if rects != [] {
      FirstTraceIff(c, border, other, rects);
    }
  }

  lemma FurtherIsNotFirst(rects: seq<Rect>)
    ensures forall p :: IsFurther(rects, p) ==> rects != [] && !rects[0].Contains(p)
  {
  }

  lemma FirstTraceIff(c: UpdateContainer, border: Rect, other: UpdateContainer, rects: seq<Rect>)
    requires WellFormed(c) && WellFormed(AddContainer(c, border, other, rects)) && rects != []
    ensures (forall p :: border.Contains(p) && rects[0].Contains(p) ==> TracesAt(c, border, other, rects, p)) <==>
            FirstIsSafe(c, border, other, rects[0])
  {
    hide TracesAt, AddContainer, LandingRect;
    var dst, d := LandingRect(border, rects[0], other.copySrc), CopyShift(rects[0], other.copySrc);
    LandingIsRect(border, rects[0], other.copySrc);
    forall p | border.Contains(p) && rects[0].Contains(p)
      ensures TracesAt(c, border, other, rects, p) <==>
              if dst.IsEmpty() then p in c.changedRegion + other.changedRegion
              else c.copiedRegion != {} || p in other.changedRegion ||
                   !(dst.Contains(p) && dst.Contains(Minus(p, d)) && Minus(p, d) in c.changedRegion)
    {
      FirstTracesIff(c, border, other, rects, p);
    }
    forall p ensures p in Translate(c.changedRegion * Pixels(dst), d) * Pixels(dst) <==>
      dst.Contains(p) && dst.Contains(Minus(p, d)) && Minus(p, d) in c.changedRegion
    {
    }
    assert forall p :: p in Pixels(dst) ==> border.Contains(p) && rects[0].Contains(p);
  }

  lemma AddContainerWellFormed(c: UpdateContainer, border: Rect, other: UpdateContainer, rects: seq<Rect>)
    requires WellFormed(c)
    ensures WellFormed(AddContainer(c, border, other, rects))
  {
    hide AddCopy, IsRect;
    if rects != [] {
      AddCopyWellFormed(c, border, rects[0], other.copySrc);
    }
  }

  lemma MergedMarks(c: UpdateContainer, border: Rect, other: UpdateContainer, rects: seq<Rect>, p: Point)
    requires border.Contains(p) && p !in AddContainer(c, border, other, rects).changedRegion
    ensures p !in other.changedRegion
  {
    hide AddCopy;
  }

  /** Any containers: merging keeps the meaning for all images if and only if the
      merge is safe. */
  lemma MergeKeepsMeaningIffSafe(c: UpdateContainer, border: Rect, other: UpdateContainer, rects: seq<Rect>)
    requires WellFormed(c)
    ensures WellFormed(AddContainer(c, border, other, rects))
    ensures MergeKeepsMeaning(c, border, other, rects) <==> MergeIsSafe(c, border, other, rects)
  {
    hide AddContainer, MergeIsSafe, TracesAt, Describes, DescribesEach;
    MergeTracesIffSafe(c, border, other, rects);
    if MergeTraces(c, border, other, rects) {
      forall before: Image, now: Image, next: Image |
        Describes(c, border, before, now) && DescribesEach(other, rects, border, now, next)
        ensures Describes(AddContainer(c, border, other, rects), border, before, next)
      {
        TracedMerge(c, border, other, rects, before, now, next);
      }
    } else {
      var p :| border.Contains(p) && !TracesAt(c, border, other, rects, p);
      UntracedMerge(c, border, other, rects, p);
    }
  }

  lemma TracedMerge(c: UpdateContainer, border: Rect, other: UpdateContainer, rects: seq<Rect>,
                    before: Image, now: Image, next: Image)
    requires WellFormed(c) && WellFormed(AddContainer(c, border, other, rects)) && MergeTraces(c, border, other, rects)
    requires Describes(c, border, before, now) && DescribesEach(other, rects, border, now, next)
    ensures Describes(AddContainer(c, border, other, rects), border, before, next)
  {
    hide AddContainer, Origin;
    var merged := AddContainer(c, border, other, rects);
    forall p | border.Contains(p) && p !in merged.changedRegion
      ensures next(p) == if p in merged.copiedRegion then before(Origin(merged, p)) else before(p)
    {
      MergedMarks(c, border, other, rects, p);
      assert TracesAt(c, border, other, rects, p);
      var q := OriginIn(rects, other.copySrc, p);
      assert next(p) == now(q) && now(q) == before(OriginOf(c, q));
    }
  }

  /** The image that a record makes out of an older one. */
  ghost function Recorded(c: UpdateContainer, before: Image): Image
    requires WellFormed(c)
  {
    (p: Point) => before(OriginOf(c, p))
  }

  lemma RecordedIsDescribed(c: UpdateContainer, border: Rect, before: Image)
    requires WellFormed(c)
    ensures Describes(c, border, before, Recorded(c, before))
  {
    forall p | border.Contains(p) && p !in c.changedRegion
      ensures Recorded(c, before)(p) == if p in c.copiedRegion then before(Origin(c, p)) else before(p)
    {
      assert Recorded(c, before)(p) == before(OriginOf(c, p));
    }
  }

  lemma UnknownIsDescribed(c: UpdateContainer, border: Rect, q: Point)
    requires WellFormed(c) && (!border.Contains(q) || q in c.changedRegion)
    ensures Describes(c, border, BLANK, Spot(q))
  {
    forall p | border.Contains(p) && p !in c.changedRegion
      ensures Spot(q)(p) == if p in c.copiedRegion then BLANK(Origin(c, p)) else BLANK(p)
    {
      assert p != q;
    }
  }

  lemma UntracedMerge(c: UpdateContainer, border: Rect, other: UpdateContainer, rects: seq<Rect>, p: Point)
    requires WellFormed(c) && WellFormed(AddContainer(c, border, other, rects))
    requires border.Contains(p) && !TracesAt(c, border, other, rects, p)
    ensures !MergeKeepsMeaning(c, border, other, rects)
  {
    hide AddContainer, Origin;
    var merged, q := AddContainer(c, border, other, rects), OriginIn(rects, other.copySrc, p);
    var unknown := !border.Contains(q) || q in c.changedRegion;
    var before := if unknown then BLANK else Spot(OriginOf(c, q));
    var now := if unknown then Spot(q) else Recorded(c, before);
    var next: Image := (x: Point) => now(OriginIn(rects, other.copySrc, x));
    if unknown {
      UnknownIsDescribed(c, border, q);
    } else {
      RecordedIsDescribed(c, border, before);
    }
    assert DescribesEach(other, rects, border, now, next);
    assert next(p) == 1 && before(OriginOf(merged, p)) == 0;
    assert !Describes(merged, border, before, next);
  }

  /** A safe merge of a container with at most one copied rectangle composes its
      update with the pending one. */
  lemma MergeComposes(c: UpdateContainer, border: Rect, other: UpdateContainer, rects: seq<Rect>,
                      before: Image, now: Image, next: Image)
    requires WellFormed(c) && Describes(c, border, before, now)
    requires WellFormed(other) && IsRectVector(rects, other.copiedRegion) && Describes(other, border, now, next)
    requires MergeIsSafe(c, border, other, rects)
    ensures WellFormed(AddContainer(c, border, other, rects))
    ensures Describes(AddContainer(c, border, other, rects), border, before, next)
  {
    hide AddContainer, MergeIsSafe, Describes, DescribesEach, IsRectVector;
    DescribesEachIff(other, rects, border, now, next);
    MergeKeepsMeaningIffSafe(c, border, other, rects);
  }

  /** For such a container only the first rectangle counts. */
  lemma SingleMergeIsSafeIff(c: UpdateContainer, border: Rect, other: UpdateContainer, rects: seq<Rect>)
    requires WellFormed(c) && WellFormed(other) && IsRectVector(rects, other.copiedRegion)
    ensures MergeIsSafe(c, border, other, rects) <==> (rects != [] ==> FirstIsSafe(c, border, other, rects[0]))
  {
    hide FirstIsSafe, FurtherIsSafe;
    FirstCorner(rects, other.copiedRegion);
    assert |rects| <= 1;
  }

  /** What is safe to copy is safe to merge. */
  lemma SafeCopyIsSafeFirst(c: UpdateContainer, border: Rect, other: UpdateContainer, rect: Rect)
    requires CopyIsSafe(c, border, rect, other.copySrc)
    ensures FirstIsSafe(c, border, other, rect)
  {
    hide LandingRect;
  }

  /** Into a clean keeper: a pixel of a further copied rectangle is lost unless it
      is marked as changed or copied from its own place. */
  lemma FurtherRectIsLost(c: UpdateContainer, border: Rect, other: UpdateContainer, rects: seq<Rect>, p: Point)
    requires c.Dirty() == {} && border.Contains(p) && IsFurther(rects, p) && p !in other.changedRegion
    requires OriginIn(rects, other.copySrc, p) != p
    ensures !MergeKeepsMeaning(c, border, other, rects)
  {
    hide AddContainer, LandingRect, OriginIn, IsFurther;
    assert c.copiedRegion <= c.Dirty() && c.changedRegion <= c.Dirty();
    MergeKeepsMeaningIffSafe(c, border, other, rects);
    assert !FurtherIsSafe(c, border, other, rects, p);
  }

  // ---------- Runs ----------

  datatype Operation =
    | Redraw(region: Region)
    | CopyRect(rect: Rect, src: Point)
    | Merge(other: UpdateContainer, rects: seq<Rect>)

  function Apply(c: UpdateContainer, border: Rect, op: Operation): UpdateContainer {
    match op
    case Redraw(region) => AddChanged(c, border, region)
    case CopyRect(rect, src) => AddCopy(c, border, rect, src)
    case Merge(other, rects) => AddContainer(c, border, other, rects)
  }

  function ApplyAll(c: UpdateContainer, border: Rect, ops: seq<Operation>): UpdateContainer {
    if ops == [] then c
    else Apply(ApplyAll(c, border, ops[..|ops| - 1]), border, ops[|ops| - 1])
  }

  /** The screen did what the operation says, and the operation is safe. */
  ghost predicate Faithful(c: UpdateContainer, border: Rect, op: Operation, now: Image, next: Image) {
    match op
    case Redraw(region) => Redrawn(border, region, now, next)
    case CopyRect(rect, src) => CopiedFrom(border, rect, src, now, next) && CopyIsSafe(c, border, rect, src)
    case Merge(other, rects) =>
      && IsRectVector(rects, other.copiedRegion) && DescribesEach(other, rects, border, now, next)
      && WellFormed(c) && MergeIsSafe(c, border, other, rects)
  }

  lemma ApplyKeepsMeaning(c: UpdateContainer, border: Rect, op: Operation, before: Image, now: Image, next: Image)
    requires WellFormed(c) && Describes(c, border, before, now) && Faithful(c, border, op, now, next)
    ensures WellFormed(Apply(c, border, op)) && Describes(Apply(c, border, op), border, before, next)
  {
    match op
    case Redraw(region) => AddChangedKeepsMeaning(c, border, region, before, now, next);
    case CopyRect(rect, src) => AddCopyKeepsMeaning(c, border, rect, src, before, now, next);
    case Merge(other, rects) =>
      MergeTracesIffSafe(c, border, other, rects);
      TracedMerge(c, border, other, rects, before, now, next);
  }

  /** What happens to a keeper: an operation, or an extraction. */
  datatype KeeperStep = Operate(op: Operation) | TakeOut(excluded: Region)

  function TakeStep(c: UpdateContainer, border: Rect, step: KeeperStep): UpdateContainer {
    match step
    case Operate(op) => Apply(c, border, op)
    case TakeOut(_) => c.Clear()
  }

  function TakeSteps(c: UpdateContainer, border: Rect, steps: seq<KeeperStep>): UpdateContainer {
    if steps == [] then c
    else TakeStep(TakeSteps(c, border, steps[..|steps| - 1]), border, steps[|steps| - 1])
  }

  /** `images[i]` is what the screen shows before step `i`. */
  ghost predicate FaithfulRun(c: UpdateContainer, border: Rect, steps: seq<KeeperStep>, images: seq<Image>) {
    && |images| == |steps| + 1
    && forall i :: 0 <= i < |steps| ==>
         match steps[i]
         case Operate(op) => Faithful(TakeSteps(c, border, steps[..i]), border, op, images[i], images[i + 1])
         case TakeOut(_) => images[i + 1] == images[i]
  }

  /** The image at the last extraction, or the one that the run started from. */
  function LastTaken(steps: seq<KeeperStep>, images: seq<Image>, before: Image): Image
    requires |images| == |steps| + 1
  {
    if steps == [] then before
    else if steps[|steps| - 1].TakeOut? then images[|steps|]
    else LastTaken(steps[..|steps| - 1], images[..|steps|], before)
  }

  /** After an extraction the keeper starts a new description. */
  lemma ClearedDescribesNothing(c: UpdateContainer, border: Rect, now: Image)
    ensures WellFormed(c.Clear()) && Describes(c.Clear(), border, now, now)
  {
  }

  /** Over every run under a fixed border the kept container describes the step
      from the image at the last extraction to the current one. */
  lemma {:induction false} RunKeepsMeaning(c: UpdateContainer, border: Rect, steps: seq<KeeperStep>, images: seq<Image>,
                                           before: Image)
    requires FaithfulRun(c, border, steps, images)
    requires WellFormed(c) && Describes(c, border, before, images[0])
    ensures WellFormed(TakeSteps(c, border, steps))
    ensures Describes(TakeSteps(c, border, steps), border, LastTaken(steps, images, before), images[|steps|])
  {
    hide Faithful, Describes, Apply;
    if steps != [] {
      var n := |steps| - 1;
      var earlier := steps[..n];
      assert forall i :: 0 <= i < n ==> earlier[..i] == steps[..i];
      RunKeepsMeaning(c, border, earlier, images[..n + 1], before);
      var mid, taken := TakeSteps(c, border, earlier), LastTaken(earlier, images[..n + 1], before);
      match steps[n]
      case Operate(op) => ApplyKeepsMeaning(mid, border, op, taken, images[n], images[n + 1]);
      case TakeOut(_) => ClearedDescribesNothing(mid, border, images[n]);
    }
  }

  // ---------- What an extraction hands out ----------

  /** The extracted container describes the step for every pixel that is not
      excluded, by its own fields: each of its rectangles from its source point. */
  ghost predicate DescribesOutside(out: UpdateContainer, rects: seq<Rect>, border: Rect, excluded: Region,
                                   before: Image, now: Image) {
    forall p :: border.Contains(p) && p !in excluded && p !in out.changedRegion ==>
      now(p) == before(OriginIn(rects, out.copySrc, p))
  }

  /** Whatever the images are. */
  ghost predicate ExtractionTells(c: UpdateContainer, border: Rect, excluded: Region, rects: seq<Rect>)
    requires WellFormed(c)
  {
    forall before: Image, now: Image :: Describes(c, border, before, now) ==>
      DescribesOutside(Extracted(c, border, excluded), rects, border, excluded, before, now)
  }

  /** What is left of the copy. */
  function CopyLeft(c: UpdateContainer, border: Rect, excluded: Region): Region {
    Crop(c.copiedRegion, border) - excluded
  }

  /** Every rectangle that border and excluded region leave has the corner that
      the source point belongs to, or all its pixels are marked anyway. */
  ghost predicate CutIsHarmless(c: UpdateContainer, rects: seq<Rect>)
    requires WellFormed(c)
  {
    c.copiedRegion == {} ||
    forall i :: 0 <= i < |rects| ==>
      rects[i].TopLeft() == TheRect(c.copiedRegion).TopLeft() || Pixels(rects[i]) <= c.changedRegion
  }

  lemma {:induction false} OriginAt(rects: seq<Rect>, src: Point, p: Point, i: nat)
    requires i < |rects| && rects[i].Contains(p) && forall j :: 0 <= j < i ==> !rects[j].Contains(p)
    ensures OriginIn(rects, src, p) == Plus(Minus(p, rects[i].TopLeft()), src)
  {
    if i > 0 {
      OriginAt(rects[1..], src, p, i - 1);
    }
  }

  /** A listed pixel has the origin that its rectangle gives it. */
  lemma OriginListed(rects: seq<Rect>, s: Region, src: Point, p: Point) returns (i: nat)
    requires IsRectVector(rects, s) && p in s
    ensures i < |rects| && rects[i].Contains(p) && OriginIn(rects, src, p) == Plus(Minus(p, rects[i].TopLeft()), src)
  {
    i :| 0 <= i < |rects| && rects[i].Contains(p);
    forall j | 0 <= j < i ensures !rects[j].Contains(p) {
      assert Pixels(rects[j]) !! Pixels(rects[i]) && p in Pixels(rects[i]);
    }
    OriginAt(rects, src, p, i);
  }

  lemma RectInside(rects: seq<Rect>, s: Region, i: nat)
    requires IsRectVector(rects, s) && i < |rects|
    ensures Pixels(rects[i]) <= s && !rects[i].IsEmpty()
  {
    forall p | p in Pixels(rects[i]) ensures p in s {
      assert rects[i].Contains(p);
    }
  }

  /** A harmless cut: every pixel keeps its origin. */
  lemma HarmlessOrigin(c: UpdateContainer, border: Rect, excluded: Region, rects: seq<Rect>, p: Point)
    requires WellFormed(c) && IsRectVector(rects, CopyLeft(c, border, excluded)) && CutIsHarmless(c, rects)
    requires border.Contains(p) && p !in excluded && p !in c.changedRegion
    ensures OriginIn(rects, c.copySrc, p) == OriginOf(c, p)
  {
    hide IsRectVector, IsRect, OriginIn;
    var left := CopyLeft(c, border, excluded);
    if p in left {
      var i := OriginListed(rects, left, c.copySrc, p);
      assert p in Pixels(rects[i]);
    } else {
      NotListed(rects, left, c.copySrc, p);
    }
  }

  lemma NotListed(rects: seq<Rect>, s: Region, src: Point, p: Point)
    requires IsRectVector(rects, s) && p !in s
    ensures OriginIn(rects, src, p) == p
  {
    OriginOfNone(rects, src, p);
  }

  /** However the copied region is listed, the extracted container describes the
      step for all images, outside the excluded region, if and only if the cut is
      harmless. */
  lemma ExtractionTellsIffHarmless(c: UpdateContainer, border: Rect, excluded: Region, rects: seq<Rect>)
    requires WellFormed(c) && IsRectVector(rects, Extracted(c, border, excluded).copiedRegion)
    ensures ExtractionTells(c, border, excluded, rects) <==> CutIsHarmless(c, rects)
  {
    hide CutIsHarmless, Describes, DescribesOutside, IsRectVector;
    if CutIsHarmless(c, rects) {
      forall before: Image, now: Image | Describes(c, border, before, now)
        ensures DescribesOutside(Extracted(c, border, excluded), rects, border, excluded, before, now)
      {
        HarmlessCutTells(c, border, excluded, rects, before, now);
      }
    } else {
      var p := HarmfulPixel(c, border, excluded, rects);
      HarmfulCutFails(c, border, excluded, rects, p);
    }
  }

  lemma HarmlessCutTells(c: UpdateContainer, border: Rect, excluded: Region, rects: seq<Rect>, before: Image,
                         now: Image)
    requires WellFormed(c) && CutIsHarmless(c, rects) && Describes(c, border, before, now)
    requires IsRectVector(rects, Extracted(c, border, excluded).copiedRegion)
    ensures DescribesOutside(Extracted(c, border, excluded), rects, border, excluded, before, now)
  {
    hide CutIsHarmless, IsRectVector, OriginIn, Origin;
    forall p | border.Contains(p) && p !in excluded && p !in Extracted(c, border, excluded).changedRegion
      ensures now(p) == before(OriginIn(rects, c.copySrc, p))
    {
      HarmlessOrigin(c, border, excluded, rects, p);
    }
  }

  /** A pixel that the list says comes from somewhere else. */
  lemma HarmfulPixel(c: UpdateContainer, border: Rect, excluded: Region, rects: seq<Rect>) returns (p: Point)
    requires WellFormed(c) && IsRectVector(rects, CopyLeft(c, border, excluded)) && !CutIsHarmless(c, rects)
    ensures p in CopyLeft(c, border, excluded) && p !in c.changedRegion && OriginIn(rects, c.copySrc, p) != Origin(c, p)
  {
    hide IsRectVector, IsRect, OriginIn, CopyLeft;
    var i :| 0 <= i < |rects| &&
      !(rects[i].TopLeft() == TheRect(c.copiedRegion).TopLeft() || Pixels(rects[i]) <= c.changedRegion);
    p :| p in Pixels(rects[i]) && p !in c.changedRegion;
    RectInside(rects, CopyLeft(c, border, excluded), i);
    var j := OriginListed(rects, CopyLeft(c, border, excluded), c.copySrc, p);
    OnlyOneHolds(rects, CopyLeft(c, border, excluded), p, i, j);
  }

  lemma OnlyOneHolds(rects: seq<Rect>, s: Region, p: Point, i: nat, j: nat)
    requires IsRectVector(rects, s) && i < |rects| && j < |rects| && rects[i].Contains(p) && rects[j].Contains(p)
    ensures i == j
  {
    assert p in Pixels(rects[i]) && p in Pixels(rects[j]);
  }

  lemma HarmfulCutFails(c: UpdateContainer, border: Rect, excluded: Region, rects: seq<Rect>, p: Point)
    requires WellFormed(c) && p in CopyLeft(c, border, excluded) && p !in c.changedRegion && IsRect(c.copiedRegion)
    requires OriginIn(rects, c.copySrc, p) != Origin(c, p)
    ensures !ExtractionTells(c, border, excluded, rects)
  {
    hide IsRectVector, OriginIn, Origin, IsRect;
    var before := Spot(Origin(c, p));
    RecordedIsDescribed(c, border, before);
    assert Recorded(c, before)(p) == 1;
    assert !DescribesOutside(Extracted(c, border, excluded), rects, border, excluded, before, Recorded(c, before));
  }

  /** A row of four pixels, three of them copied one to the right, the first of
      these excluded: what is left says that it comes from its own start. */
  lemma CutCornerCounterexample(c: UpdateContainer, border: Rect, copied: Rect, excluded: Region, rects: seq<Rect>)
    requires border == Rect(0, 0, 4, 1) && copied == Rect(1, 0, 4, 1) && excluded == {Point(1, 0)}
    requires c.copiedRegion == Pixels(copied) && c.changedRegion == {} && c.copySrc == Point(0, 0)
    requires IsRectVector(rects, Extracted(c, border, excluded).copiedRegion)
    ensures WellFormed(c) && !ExtractionTells(c, border, excluded, rects)
  {
    hide ExtractionTells, IsRectVector;
    TheRectOfPixels(copied);
    var left := CopyLeft(c, border, excluded);
    assert Point(2, 0) in Pixels(copied) && Point(2, 0) in left;
    FirstCorner(rects, left);
    assert copied.TopLeft() !in left;
    assert rects[0].TopLeft() in left && Pixels(rects[0]) != {} by {
      RectInside(rects, left, 0);
      assert rects[0].TopLeft() in Pixels(rects[0]);
    }
    ExtractionTellsIffHarmless(c, border, excluded, rects);
  }

  /** Every extraction of every run hands out the step since the one before: each
      listing of its container describes it if the cut is harmless for it, and
      only marked pixels and pixels of the copy are other than they were. */
  lemma RunDeliversSteps(c: UpdateContainer, border: Rect, steps: seq<KeeperStep>, images: seq<Image>, before: Image,
                         i: nat)
    requires FaithfulRun(c, border, steps, images)
    requires WellFormed(c) && Describes(c, border, before, images[0])
    requires i < |steps| && steps[i].TakeOut?
    ensures var kept, excluded := TakeSteps(c, border, steps[..i]), steps[i].excluded;
            var out, taken := Extracted(kept, border, excluded), LastTaken(steps[..i], images[..i + 1], before);
            && WellFormed(kept)
            && (forall rects :: IsRectVector(rects, out.copiedRegion) && CutIsHarmless(kept, rects) ==>
                  DescribesOutside(out, rects, border, excluded, taken, images[i]))
            && (forall p :: border.Contains(p) && p !in excluded && p !in out.Dirty() ==> images[i](p) == taken(p))
  {
    hide Faithful, Describes, CutIsHarmless, IsRectVector, DescribesOutside, Extracted;
    assert forall k :: 0 <= k < i ==> steps[..i][..k] == steps[..k];
    RunKeepsMeaning(c, border, steps[..i], images[..i + 1], before);
    var kept, excluded := TakeSteps(c, border, steps[..i]), steps[i].excluded;
    var taken := LastTaken(steps[..i], images[..i + 1], before);
    CleanIsUnchanged(kept, border, excluded, taken, images[i]);
    forall rects | IsRectVector(rects, Extracted(kept, border, excluded).copiedRegion) && CutIsHarmless(kept, rects)
      ensures DescribesOutside(Extracted(kept, border, excluded), rects, border, excluded, taken, images[i])
    {
      HarmlessCutTells(kept, border, excluded, rects, taken, images[i]);
    }
  }

  lemma CleanIsUnchanged(c: UpdateContainer, border: Rect, excluded: Region, before: Image, now: Image)
    requires WellFormed(c) && Describes(c, border, before, now)
    ensures forall p :: border.Contains(p) && p !in excluded && p !in Extracted(c, border, excluded).Dirty() ==>
              now(p) == before(p)
  {
  }

  /** Between extractions no dirty pixel is ever lost, and at most one copied
      rectangle is pending. */
  lemma {:induction false} RunKeepsDirty(c: UpdateContainer, border: Rect, ops: seq<Operation>)
    requires WellFormed(c) && WithinBorder(c, border)
    ensures WellFormed(ApplyAll(c, border, ops)) && WithinBorder(ApplyAll(c, border, ops), border)
    ensures c.Dirty() <= ApplyAll(c, border, ops).Dirty()
  {
    if ops != [] {
      var earlier := ops[..|ops| - 1];
      RunKeepsDirty(c, border, earlier);
      var mid := ApplyAll(c, border, earlier);
      match ops[|ops| - 1]
      case Redraw(region) =>
      case CopyRect(rect, src) =>
        AddCopyDirtySet(mid, border, rect, src);
        AddCopyWellFormed(mid, border, rect, src);
      case Merge(other, rects) =>
        AddContainerDirtySet(mid, border, other, rects);
        if rects != [] {
          AddCopyWellFormed(mid, border, rects[0], other.copySrc);
        }
    }
  }

  /** One operation on flags, video region and cursor position. */
  lemma ApplyProperties(c: UpdateContainer, border: Rect, op: Operation)
    ensures Apply(c, border, op).screenSizeChanged <==>
            c.screenSizeChanged || (op.Merge? && op.other.screenSizeChanged)
    ensures Apply(c, border, op).cursorPosChanged <==>
            c.cursorPosChanged || (op.Merge? && op.other.cursorPosChanged)
    ensures Apply(c, border, op).cursorShapeChanged <==>
            c.cursorShapeChanged || (op.Merge? && op.other.cursorShapeChanged)
    ensures Apply(c, border, op).videoRegion == if op.Merge? then c.videoRegion + op.other.videoRegion
            else c.videoRegion
    ensures Apply(c, border, op).cursorPos == if op.Merge? then op.other.cursorPos else c.cursorPos
  {
    hide LandingRect;
  }

  /** An extraction hands out every flag and all of the video region that was set
      in some container merged since the one before, and no more, and the cursor
      position of the container merged last.  It takes all but the position with it. */
  lemma RunHandsOutProperties(c: UpdateContainer, border: Rect, ops: seq<Operation>, excluded: Region)
    ensures var kept := ApplyAll(c, border, ops);
            var out := Extracted(kept, border, excluded);
            && (out.screenSizeChanged <==>
                  c.screenSizeChanged || exists i :: 0 <= i < |ops| && ops[i].Merge? && ops[i].other.screenSizeChanged)
            && (out.cursorPosChanged <==>
                  c.cursorPosChanged || exists i :: 0 <= i < |ops| && ops[i].Merge? && ops[i].other.cursorPosChanged)
            && (out.cursorShapeChanged <==>
                  c.cursorShapeChanged || exists i ::
                  0 <= i < |ops| && ops[i].Merge? && ops[i].other.cursorShapeChanged)
            && (forall p :: p in out.videoRegion <==>
                  p in c.videoRegion || exists i :: 0 <= i < |ops| && ops[i].Merge? && p in ops[i].other.videoRegion)
            && ((forall i :: 0 <= i < |ops| ==> !ops[i].Merge?) ==> out.cursorPos == c.cursorPos)
            && (forall i :: 0 <= i < |ops| && ops[i].Merge? && (forall k :: i < k < |ops| ==> !ops[k].Merge?) ==>
                  out.cursorPos == ops[i].other.cursorPos)
            && !kept.Clear().screenSizeChanged && !kept.Clear().cursorPosChanged && !kept.Clear().cursorShapeChanged
            && kept.Clear().videoRegion == {} && kept.Clear().cursorPos == out.cursorPos
  {
    hide ApplyAll, Crop;
    RunKeepsFlags(c, border, ops);
    RunKeepsVideo(c, border, ops);
    if forall i :: 0 <= i < |ops| ==> !ops[i].Merge? {
      NoMergeKeepsPosition(c, border, ops, 0);
      NothingApplied(c, border);
    }
    forall i | 0 <= i < |ops| && ops[i].Merge? && forall k :: i < k < |ops| ==> !ops[k].Merge?
      ensures ApplyAll(c, border, ops).cursorPos == ops[i].other.cursorPos
    {
      LastMergeGivesPosition(c, border, ops, i);
    }
  }

  lemma {:induction false} RunKeepsFlags(c: UpdateContainer, border: Rect, ops: seq<Operation>)
    ensures var kept := ApplyAll(c, border, ops);
            && (kept.screenSizeChanged <==>
                  c.screenSizeChanged || exists i :: 0 <= i < |ops| && ops[i].Merge? && ops[i].other.screenSizeChanged)
            && (kept.cursorPosChanged <==>
                  c.cursorPosChanged || exists i :: 0 <= i < |ops| && ops[i].Merge? && ops[i].other.cursorPosChanged)
            && (kept.cursorShapeChanged <==>
                  c.cursorShapeChanged || exists i ::
                  0 <= i < |ops| && ops[i].Merge? && ops[i].other.cursorShapeChanged)
  {
    hide Apply;
    if ops != [] {
      var n := |ops| - 1;
      RunKeepsFlags(c, border, ops[..n]);
      ApplyProperties(ApplyAll(c, border, ops[..n]), border, ops[n]);
      assert forall i :: 0 <= i < n ==> ops[..n][i] == ops[i];
    }
  }

  lemma {:induction false} RunKeepsVideo(c: UpdateContainer, border: Rect, ops: seq<Operation>)
    ensures forall p :: p in ApplyAll(c, border, ops).videoRegion <==>
              p in c.videoRegion || exists i :: 0 <= i < |ops| && ops[i].Merge? && p in ops[i].other.videoRegion
  {
    hide Apply;
    if ops != [] {
      var n := |ops| - 1;
      RunKeepsVideo(c, border, ops[..n]);
      ApplyProperties(ApplyAll(c, border, ops[..n]), border, ops[n]);
      assert forall i :: 0 <= i < n ==> ops[..n][i] == ops[i];
    }
  }

  lemma NothingApplied(c: UpdateContainer, border: Rect)
    ensures ApplyAll(c, border, []) == c
  {
  }

  lemma {:induction false} NoMergeKeepsPosition(c: UpdateContainer, border: Rect, ops: seq<Operation>, i: nat)
    requires i <= |ops| && forall k :: i <= k < |ops| ==> !ops[k].Merge?
    ensures ApplyAll(c, border, ops).cursorPos == ApplyAll(c, border, ops[..i]).cursorPos
  {
    hide Apply;
    var n := |ops| - 1;
    if i <= n {
      NoMergeKeepsPosition(c, border, ops[..n], i);
      assert ops[..n][..i] == ops[..i];
      ApplyProperties(ApplyAll(c, border, ops[..n]), border, ops[n]);
    } else {
      assert ops[..i] == ops;
    }
  }

  lemma LastMergeGivesPosition(c: UpdateContainer, border: Rect, ops: seq<Operation>, i: nat)
    requires i < |ops| && ops[i].Merge? && forall k :: i < k < |ops| ==> !ops[k].Merge?
    ensures ApplyAll(c, border, ops).cursorPos == ops[i].other.cursorPos
  {
    hide Apply;
    NoMergeKeepsPosition(c, border, ops, i + 1);
    assert ops[..i + 1][..i] == ops[..i] && ops[..i + 1][i] == ops[i];
    ApplyProperties(ApplyAll(c, border, ops[..i]), border, ops[i]);
  }
}
