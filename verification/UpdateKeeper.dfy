/** The keeper of pending updates (desktop/UpdateKeeper.cpp).

    The methods of the class are proved against set level specifications
    (`AddChanged`, `AddCopy`, `AddContainer`).  What the kept state means, and
    when the operations keep that meaning, is in module KeeperMeaning. */
module UpdateKeepers {
  import opened Geometry
  import opened Regions

  datatype UpdateContainer = UpdateContainer(
    copiedRegion: Region,
    changedRegion: Region,
    videoRegion: Region,
    screenSizeChanged: bool,
    cursorPosChanged: bool,
    cursorShapeChanged: bool,
    copySrc: Point,
    cursorPos: Point)
  {
    /** Everything is reset but the cursor position. */
    function Clear(): UpdateContainer {
      UpdateContainer({}, {}, {}, false, false, false, Point(0, 0), cursorPos)
    }

    predicate IsEmpty() {
      && copiedRegion == {} && changedRegion == {} && videoRegion == {}
      && !screenSizeChanged && !cursorPosChanged && !cursorShapeChanged
    }

    function Dirty(): Region {
      changedRegion + copiedRegion
    }
  }

  const EMPTY_CONTAINER :=
    UpdateContainer({}, {}, {}, false, false, false, Point(0, 0), Point(0, 0))

  // ---------- Specifications of the operations ----------

  function AddChanged(c: UpdateContainer, border: Rect, region: Region): UpdateContainer {
    c.(changedRegion := Crop(c.changedRegion + region, border))
  }

  /** The vector from a pixel's source to its place in the copied rectangle. */
  function CopyShift(rect: Rect, src: Point): Point {
    Point(rect.left - src.x, rect.top - src.y)
  }

  /** Where a copy lands: inside the border, from a source inside the border. */
  function LandingRect(border: Rect, rect: Rect, src: Point): Rect {
    var d := CopyShift(rect, src);
    rect.Intersection(border).Intersection(border.Move(d.x, d.y))
  }

  function AddCopy(c: UpdateContainer, border: Rect, rect: Rect, src: Point): UpdateContainer {
    var dst := LandingRect(border, rect, src);
    if dst.IsEmpty() then c else KeepCopy(c, border, rect, dst, CopyShift(rect, src))
  }

  function KeepCopy(c: UpdateContainer, border: Rect, rect: Rect, dst: Rect, d: Point): UpdateContainer {
    if c.copiedRegion != {} then
      // Only one copied rectangle can be kept: both become ordinary changes.
      c.(copySrc := Minus(dst.TopLeft(), d),
         copiedRegion := {},
         changedRegion := Crop(c.changedRegion + c.copiedRegion + Pixels(rect), border))
    else
      var stale := Crop(c.changedRegion + Pixels(rect), border) - Pixels(dst);
      c.(copySrc := Minus(dst.TopLeft(), d),
         copiedRegion := Pixels(dst),
         changedRegion := stale + Translate(stale, d) * Pixels(dst))
  }

  /** The flags, cursor position and video region of a merged container. */
  function AddProperties(c: UpdateContainer, other: UpdateContainer): UpdateContainer {
    c.(videoRegion := c.videoRegion + other.videoRegion,
       screenSizeChanged := c.screenSizeChanged || other.screenSizeChanged,
       cursorPos := other.cursorPos,
       cursorPosChanged := c.cursorPosChanged || other.cursorPosChanged,
       cursorShapeChanged := c.cursorShapeChanged || other.cursorShapeChanged)
  }

  /** Merging a container whose copied region is listed as `rects`: only the
      first of the rectangles is used. */
  function AddContainer(c: UpdateContainer, border: Rect, other: UpdateContainer, rects: seq<Rect>): UpdateContainer {
    var copied := if rects == [] then c else AddCopy(c, border, rects[0], other.copySrc);
    AddProperties(AddChanged(copied, border, other.changedRegion), other)
  }

  function Extracted(c: UpdateContainer, border: Rect, excluded: Region): UpdateContainer {
    c.(changedRegion := Crop(c.changedRegion, border) - excluded,
       copiedRegion := Crop(c.copiedRegion, border) - excluded)
  }

  /** Clipping the source and moving the result back is clipping the destination. */
  lemma ClipMoved(a: Rect, b: Rect, d: Point)
    ensures a.Move(-d.x, -d.y).Intersection(b).IsEmpty() <==> a.Intersection(b.Move(d.x, d.y)).IsEmpty()
    ensures !a.Move(-d.x, -d.y).Intersection(b).IsEmpty() ==>
              a.Move(-d.x, -d.y).Intersection(b).Move(d.x, d.y) == a.Intersection(b.Move(d.x, d.y))
  {
    var o, q := a.Move(-d.x, -d.y).Overlap(b), a.Overlap(b.Move(d.x, d.y));
    assert o.Move(d.x, d.y) == q;
    assert o.IsValid() == q.IsValid() && o.IsEmpty() == q.IsEmpty();
  }

  lemma IntersectionInside(a: Rect, b: Rect, c: Rect)
    requires !a.Intersection(b).Intersection(c).IsEmpty()
    ensures a.Intersection(b).Intersection(c).Intersection(b) == a.Intersection(b).Intersection(c)
  {
    var i := a.Intersection(b);
    assert b.left <= i.left && i.right <= b.right && b.top <= i.top && i.bottom <= b.bottom;
  }

  /** The edges of `r` change by as much as `clipped` differs from `whole`. */
  function Correct(r: Rect, clipped: Rect, whole: Rect): Rect {
    Rect(r.left + (clipped.left - whole.left), r.top + (clipped.top - whole.top),
         r.right + (clipped.right - whole.right), r.bottom + (clipped.bottom - whole.bottom))
  }

  /** The two-stage clipping of `addCopyRect`: the destination against the
      border, then the source, each correcting the other. */
  method ClipCopy(border: Rect, rect: Rect, src: Point) returns (dst: Rect, from: Rect)
    ensures dst.IsEmpty() <==> LandingRect(border, rect, src).IsEmpty()
    ensures !dst.IsEmpty() ==> dst == LandingRect(border, rect, src)
    ensures !dst.IsEmpty() ==> from == dst.Move(-CopyShift(rect, src).x, -CopyShift(rect, src).y)
    ensures !dst.IsEmpty() ==> dst.Intersection(border) == dst
  {
    hide Rect.Intersection, Correct;
    ghost var d := CopyShift(rect, src);
    from := rect.SetLocation(src.x, src.y);
    dst := rect.Intersection(border);
    CorrectMoved(rect, dst, Point(-d.x, -d.y));
    from := Correct(from, dst, rect);
    var unclipped := from;
    from := from.Intersection(border);
    ClipMoved(dst, border, d);
    CorrectMoved(unclipped, from, d);
    dst := Correct(dst, from, unclipped);
    if !dst.IsEmpty() {
      IntersectionInside(rect, border, border.Move(d.x, d.y));
    }
  }

  lemma CorrectMoved(whole: Rect, clipped: Rect, d: Point)
    ensures Correct(whole.Move(d.x, d.y), clipped, whole) == clipped.Move(d.x, d.y)
  {
  }

  lemma MarkUncoveredThenAll(changed: Region, copied: Region, border: Rect, rect: Rect, dst: Rect)
    ensures Crop(Crop(changed + (Pixels(rect) - Pixels(dst)), border) + copied + Pixels(rect), border)
         == Crop(changed + copied + Pixels(rect), border)
  {
  }

  lemma MarkUncovered(changed: Region, border: Rect, rect: Rect, dst: Rect)
    ensures Crop(changed + (Pixels(rect) - Pixels(dst)), border) - Pixels(dst)
         == Crop(changed + Pixels(rect), border) - Pixels(dst)
  {
  }

  lemma CarryWithCopy(stale: Region, border: Rect, dst: Rect, from: Rect, d: Point)
    requires from == dst.Move(-d.x, -d.y)
    requires forall p :: p in stale ==> border.Contains(p)
    requires dst.Intersection(border) == dst
    ensures Translate(Pixels(from) * stale, d) == Translate(stale, d) * Pixels(dst)
    ensures Crop(stale + Translate(stale, d) * Pixels(dst), border) == stale + Translate(stale, d) * Pixels(dst)
    ensures Crop(Pixels(dst), border) == Pixels(dst)
  {
  }

  class UpdateKeeper {
    var borderRect: Rect
    var excludedRegion: Region
    var container: UpdateContainer

    constructor (borderRect: Rect)
      ensures this.borderRect == borderRect && excludedRegion == {} && container == EMPTY_CONTAINER
    {
      this.borderRect, excludedRegion, container := borderRect, {}, EMPTY_CONTAINER;
    }

    method AddChangedRegion(region: Region)
      modifies this`container
      ensures container == AddChanged(old(container), borderRect, region)
    {
      container := container.(changedRegion := container.changedRegion + region);
      container := container.(changedRegion := Crop(container.changedRegion, borderRect));
    }

    method AddChangedRect(rect: Rect)
      modifies this`container
      ensures container == AddChanged(old(container), borderRect, Pixels(rect))
    {
      AddChangedRegion(Pixels(rect));
    }

    /** The whole border is to be sent again, and nothing outside it. */
    method DazzleChangedRegion()
      modifies this`container
      ensures container == old(container).(changedRegion := Pixels(borderRect))
    {
      AddChangedRect(borderRect);
      assert container.changedRegion == Pixels(borderRect);
    }

    method AddCopyRect(rect: Rect, src: Point)
      modifies this`container
      ensures container == AddCopy(old(container), borderRect, rect, src)
    {
      if rect.IsEmpty() {
        return;
      }
      var dst, from := ClipCopy(borderRect, rect, src);
      if dst.IsEmpty() {
        return;
      }
      KeepCopyRect(rect, dst, from, CopyShift(rect, src));
    }

    /** The part of `addCopyRect` after clipping. */
    method KeepCopyRect(rect: Rect, dst: Rect, from: Rect, ghost d: Point)
      requires !dst.IsEmpty() && from == dst.Move(-d.x, -d.y)
      requires dst.Intersection(borderRect) == dst
      modifies this`container
      ensures container == KeepCopy(old(container), borderRect, rect, dst, d)
    {
      container := container.(copySrc := from.TopLeft());

      // What the copy does not cover is lost unless it is marked as changed.
      AddChangedRegion(Pixels(rect) - Pixels(dst));

      if container.copiedRegion != {} {
        container := container.(changedRegion := container.changedRegion + container.copiedRegion);
        container := container.(copiedRegion := {});
        AddChangedRect(rect);
        MarkUncoveredThenAll(old(container).changedRegion, old(container).copiedRegion, borderRect, rect, dst);
        return;
      }

      container := container.(copiedRegion := Pixels(dst));
      container := container.(changedRegion := container.changedRegion - container.copiedRegion);
      MarkUncovered(old(container).changedRegion, borderRect, rect, dst);

      // Changes inside the source travel with the copy.
      var carried := Pixels(from) * container.changedRegion;
      var shift := Minus(dst.TopLeft(), container.copySrc);
      assert shift == d && container.copySrc == Minus(dst.TopLeft(), d);
      CarryWithCopy(container.changedRegion, borderRect, dst, from, d);
      carried := Translate(carried, shift);
      container := container.(changedRegion := container.changedRegion + carried);

      container := container.(changedRegion := Crop(container.changedRegion, borderRect));
      container := container.(copiedRegion := Crop(container.copiedRegion, borderRect));
    }

    method SetBorderRect(rect: Rect)
      modifies this`borderRect
      ensures borderRect == rect
    {
      borderRect := rect;
    }

    method SetScreenSizeChanged()
      modifies this`container
      ensures container == old(container).(screenSizeChanged := true)
    {
      container := container.(screenSizeChanged := true);
    }

    method SetCursorPosChanged(curPos: Point)
      modifies this`container
      ensures container == old(container).(cursorPosChanged := true, cursorPos := curPos)
    {
      container := container.(cursorPosChanged := true, cursorPos := curPos);
    }

    method SetCursorPos(curPos: Point)
      modifies this`container
      ensures container == old(container).(cursorPos := curPos)
    {
      container := container.(cursorPos := curPos);
    }

    method SetCursorShapeChanged()
      modifies this`container
      ensures container == old(container).(cursorShapeChanged := true)
    {
      container := container.(cursorShapeChanged := true);
    }

    method AddUpdateContainer(other: UpdateContainer)
      modifies this`container
      ensures container == AddContainer(old(container), borderRect, other, GetRectVector(other.copiedRegion))
    {
      var list := GetRectVector(other.copiedRegion);
      if |list| > 0 {
        AddCopyRect(list[0], other.copySrc);
      }
      AddChangedRegion(other.changedRegion);
      container := container.(videoRegion := container.videoRegion + other.videoRegion);
      if other.screenSizeChanged {
        SetScreenSizeChanged();
      }
      SetCursorPos(other.cursorPos);
      if other.cursorPosChanged {
        SetCursorPosChanged(other.cursorPos);
      }
      if other.cursorShapeChanged {
        SetCursorShapeChanged();
      }
    }

    method CheckForUpdates(region: Region) returns (found: bool)
      ensures found <==>
              || container.cursorPosChanged || container.cursorShapeChanged || container.screenSizeChanged
              || exists p :: p in region && p in container.Dirty()
    {
      var result := container.changedRegion;
      result := result + container.copiedRegion;
      result := result * region;
      found := container.cursorPosChanged || container.cursorShapeChanged || container.screenSizeChanged ||
        result != {};
      assert forall p :: p in result <==> p in region && p in container.Dirty();
    }

    method Extract() returns (out: UpdateContainer)
      modifies this`container
      ensures out == Extracted(old(container), borderRect, excludedRegion)
      ensures container == old(container).Clear()
    {
      container := container.(changedRegion := Crop(container.changedRegion, borderRect));
      container := container.(copiedRegion := Crop(container.copiedRegion, borderRect));
      out := container;
      container := container.Clear();
      out := out.(changedRegion := out.changedRegion - excludedRegion);
      out := out.(copiedRegion := out.copiedRegion - excludedRegion);
    }

    method SetExcludedRegion(region: Region)
      modifies this`excludedRegion
      ensures excludedRegion == region
    {
      excludedRegion := region;
    }
  }
}
