/** Drawing the cursor into a frame buffer and taking it away again
    (fb-update-sender/CursorUpdates.cpp). */
module CursorUpdaters {
  import opened Geometry
  import opened Frames
  import opened FrameBuffers
  import opened UpdateKeepers
  import opened UpdateFilters

  /** The background holds what `f` shows in the rectangle. */
  ghost predicate Saves(background: Frame, r: Rect, f: Frame) {
    forall p :: p in f && r.Contains(p) ==>
      Minus(p, r.TopLeft()) in background && background[Minus(p, r.TopLeft())] == f[p]
  }

  /** A copy of the rectangle saves it. */
  lemma CopySaves(junk: Frame, dim: Dimension, r: Rect, f: Frame)
    requires junk.Keys == Pixels(dim.GetRect()) && r == dim.GetRect().SetLocation(r.left, r.top)
    ensures Saves(Copied(junk, dim.GetRect(), f, r.TopLeft()), r, f)
  {
    var saved := Copied(junk, dim.GetRect(), f, r.TopLeft());
    forall p | p in f && r.Contains(p)
      ensures Minus(p, r.TopLeft()) in saved && saved[Minus(p, r.TopLeft())] == f[p]
    {
      assert Minus(p, r.TopLeft()) in junk;
      assert Plus(Minus(Minus(p, r.TopLeft()), dim.GetRect().TopLeft()), r.TopLeft()) == p;
    }
  }

  /** Copying the saved background back undoes whatever happened in the
      rectangle, and nothing else. */
  lemma RestoreUndoes(g: Frame, r: Rect, background: Frame, f: Frame)
    requires Saves(background, r, f) && g.Keys == f.Keys
    ensures Copied(g, r, background, Point(0, 0)) == Patched(g, Pixels(r), f)
  {
    forall p | p in g ensures Copied(g, r, background, Point(0, 0))[p] == Patched(g, Pixels(r), f)[p] {
      assert Plus(Minus(p, r.TopLeft()), Point(0, 0)) == Minus(p, r.TopLeft());
    }
  }

  /** The cursor is drawn inside its rectangle only. */
  lemma OverlayStaysInside(f: Frame, r: Rect, shape: Frame, mask: Point -> bool)
    ensures ChangedOnlyIn(f, Overlaid(f, r, shape, mask), Pixels(r))
  {
  }

  /** Drawing, then restoring, is the identity: for every position, hot spot and
      mask, and however much of the cursor lies outside the buffer. */
  lemma DrawThenRestore(f: Frame, g: Frame, r: Rect, background: Frame)
    requires Saves(background, r, f) && ChangedOnlyIn(f, g, Pixels(r))
    ensures Copied(g, r, background, Point(0, 0)) == f
  {
    RestoreUndoes(g, r, background, f);
    assert forall p :: p in f ==> Patched(g, Pixels(r), f)[p] == f[p];
  }

  /** A coordinate moved into 0..size-1, from below first. */
  function Clamped(x: int, size: int): (r: int)
    ensures size > 0 ==> 0 <= r < size && (0 <= x < size ==> r == x)
  {
    if x < 0 then 0 else if x >= size then size - 1 else x
  }

  /** How far two points are apart, along the axes. */
  function Distance(p: Point, q: Point): int {
    (if p.x < q.x then q.x - p.x else p.x - q.x) + (if p.y < q.y then q.y - p.y else p.y - q.y)
  }

  class CursorUpdates {
    var cursorPos: Point
    var hotSpot: Point
    var shape: FrameBuffer
    var mask: Point -> bool
    var shapeBackground: FrameBuffer
    var backgroundPos: Point

    constructor (shape: FrameBuffer, hotSpot: Point, mask: Point -> bool)
      requires shape.Valid()
      ensures this.shape == shape && this.hotSpot == hotSpot && this.mask == mask && cursorPos == Point(0, 0)
      ensures shapeBackground.Valid() && fresh(shapeBackground) && fresh(shapeBackground.buffer)
      ensures GetBackgroundRect().IsEmpty()
    {
      this.shape, this.hotSpot, this.mask := shape, hotSpot, mask;
      cursorPos, backgroundPos := Point(0, 0), Point(0, 0);
      shapeBackground := new FrameBuffer(Dimension(0, 0), shape.pf);
    }

    function GetBackgroundRect(): Rect
      reads this, shapeBackground
    {
      shapeBackground.dim.GetRect().SetLocation(backgroundPos.x, backgroundPos.y)
    }

    /** The buffers are different objects. */
    ghost predicate Valid(fb: FrameBuffer)
      reads this, shape, shapeBackground, fb
    {
      && shape.Valid() && shapeBackground.Valid() && fb.Valid()
      && shapeBackground != fb && shapeBackground != shape && fb.buffer != shape.buffer &&
         shapeBackground.buffer != fb.buffer
    }

    /** `drawCursor`: the old background becomes dirty, the new one is kept, and
        the cursor goes on top of it. */
    method DrawCursor(c: UpdateContainer, fb: FrameBuffer) returns (c': UpdateContainer)
      requires Valid(fb)
      modifies this`backgroundPos, shapeBackground, fb.buffer
      ensures Valid(fb) && c' == c.(changedRegion := c.changedRegion + Pixels(old(GetBackgroundRect())))
      ensures GetBackgroundRect().TopLeft() == Minus(cursorPos, hotSpot) && shapeBackground.dim == shape.dim
      ensures shapeBackground.pf == shape.pf && fresh(shapeBackground.buffer)
      ensures fb.pf == shape.pf ==> Saves(shapeBackground.Content(), GetBackgroundRect(), old(fb.Content()))
      ensures fb.Content() ==
              if fb.pf == shape.pf && fb.pf.bitsPerPixel in {8, 16, 32}
              then Overlaid(old(fb.Content()), GetBackgroundRect(), shape.Content(), mask) else old(fb.Content())
    {
      hide FrameBuffer.Content, Copied, Overlaid, Dimension.Area, Pixels;
      c' := c.(changedRegion := c.changedRegion + Pixels(GetBackgroundRect()));
      backgroundPos := Minus(cursorPos, hotSpot);
      shapeBackground.SetProperties(shape.dim, shape.pf);
      ghost var junk := shapeBackground.Content();
      var saved := shapeBackground.CopyFrom(shapeBackground.dim.GetRect(), fb, backgroundPos.x, backgroundPos.y);
      if saved {
        CopySaves(junk, shape.dim, GetBackgroundRect(), fb.Content());
      }
      var rect := shape.dim.GetRect().SetLocation(backgroundPos.x, backgroundPos.y);
      var drawn := fb.Overlay(rect, shape, mask);
    }

    method RestoreFrameBuffer(fb: FrameBuffer)
      requires Valid(fb)
      modifies fb.buffer
      ensures fb.Content() ==
              if fb.pf == shapeBackground.pf
              then Copied(old(fb.Content()), GetBackgroundRect(), shapeBackground.Content(), Point(0, 0))
              else old(fb.Content())
    {
      hide FrameBuffer.Content, Copied, Dimension.Area, Pixels;
      var ok := fb.CopyFrom(GetBackgroundRect(), shapeBackground, 0, 0);
    }

    /** Both in turn leave the buffer as it was. */
    method DrawAndRestore(c: UpdateContainer, fb: FrameBuffer) returns (c': UpdateContainer)
      requires Valid(fb)
      modifies this`backgroundPos, shapeBackground, fb.buffer
      ensures fb.Content() == old(fb.Content())
    {
      hide FrameBuffer.Content, Copied, Overlaid, Dimension.Area, Pixels, Saves, ChangedOnlyIn;
      ghost var f := fb.Content();
      c' := DrawCursor(c, fb);
      ghost var r := GetBackgroundRect();
      UnchangedIsInside(f, Pixels(r));
      OverlayStaysInside(f, r, shape.Content(), mask);
      if fb.pf == shape.pf {
        DrawThenRestore(f, fb.Content(), r, shapeBackground.Content());
      }
      RestoreFrameBuffer(fb);
    }

    /** `checkCursorPos`: the nearest position inside the view port.  A blocked or
        unchanged position is not told. */
    method CheckCursorPos(c: UpdateContainer, viewPort: Rect, blocked: bool)
      returns (positionChanged: bool, c': UpdateContainer)
      modifies this`cursorPos
      ensures var p := Point(Clamped(c.cursorPos.x - viewPort.left, viewPort.Width()),
                             Clamped(c.cursorPos.y - viewPort.top, viewPort.Height()));
              && positionChanged == (p != old(cursorPos))
              && cursorPos == (if blocked then old(cursorPos) else p)
              && c' == c.(cursorPosChanged := c.cursorPosChanged && positionChanged && !blocked)
      ensures !blocked && viewPort.left < viewPort.right && viewPort.top < viewPort.bottom ==>
                var p := Plus(cursorPos, viewPort.TopLeft());
                && viewPort.Contains(p)
                && forall q :: viewPort.Contains(q) && q != p ==> Distance(c.cursorPos, p) < Distance(c.cursorPos, q)
    {
      var x, y := c.cursorPos.x - viewPort.left, c.cursorPos.y - viewPort.top;
      if x < 0 {
        x := 0;
      } else if x >= viewPort.Width() {
        x := viewPort.Width() - 1;
      }
      if y < 0 {
        y := 0;
      } else if y >= viewPort.Height() {
        y := viewPort.Height() - 1;
      }
      positionChanged := x != cursorPos.x || y != cursorPos.y;
      c' := c;
      if !positionChanged || blocked {
        c' := c'.(cursorPosChanged := false);
      } else {
        cursorPos := Point(x, y);
      }
    }
  }
}
