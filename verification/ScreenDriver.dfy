/** The screen driver as its users see it (desktop/ScreenDriver.h): a work buffer
    that is brought up to date rectangle by rectangle.

    `desktop` stands for what the display shows.  A grab may fail, and then
    nothing is known about the grabbed rectangle. */
module ScreenDrivers {
  import opened Geometry
  import opened Frames
  import opened FrameBuffers

  /** A grab replaces pixels by what the display shows, or keeps them. */
  ghost predicate OnlyRefreshed(before: Frame, after: Frame, display: Frame) {
    && after.Keys == before.Keys
    && forall p :: p in before && after[p] != before[p] ==> p in display && after[p] == display[p]
  }

  ghost predicate Shows(f: Frame, region: Region, display: Frame) {
    forall p :: p in region && p in f ==> p in display && f[p] == display[p]
  }

  lemma ShowsLess(f: Frame, more: Region, less: Region, display: Frame)
    requires Shows(f, more, display) && less <= more
    ensures Shows(f, less, display)
  {
  }

  lemma ShowsNothing(f: Frame, display: Frame)
    ensures Shows(f, {}, display) && OnlyRefreshed(f, f, display)
  {
  }

  class ScreenDriver {
    var screen: FrameBuffer
    var desktop: FrameBuffer

    constructor (screen: FrameBuffer, desktop: FrameBuffer)
      ensures this.screen == screen && this.desktop == desktop
    {
      this.screen, this.desktop := screen, desktop;
    }

    ghost predicate Valid()
      reads this, screen, desktop
    {
      screen.Valid() && desktop.Valid() && screen != desktop && screen.buffer != desktop.buffer
    }

    /** Every driver answers with the size that the work buffer was set up with,
        whatever the display is by now. */
    function GetScreenDimension(): Dimension
      reads this, screen
    {
      screen.dim
    }

    /** A grab fails for reasons of its own, and always when the screen changed its properties. */
    method GrabFb(rect: Rect) returns (ok: bool)
      requires Valid()
      modifies screen.buffer
      ensures ok ==> OnlyRefreshed(old(screen.Content()), screen.Content(), desktop.Content())
      ensures ok ==> Shows(screen.Content(), Pixels(rect), desktop.Content())
      ensures ok ==> ChangedOnlyIn(old(screen.Content()), screen.Content(), Pixels(rect))
    {
      var failed := *;
      if failed || !screen.IsEqualTo(desktop) {
        return false;
      }
      ok := screen.CopyFrom(rect, desktop, rect.left, rect.top);
      assert forall p :: Plus(Minus(p, rect.TopLeft()), Point(rect.left, rect.top)) == p;
    }

    /** On success the work buffer has the desktop's properties and unknown pixels. */
    method ApplyNewScreenProperties() returns (ok: bool)
      requires Valid()
      modifies this`screen
      ensures Valid() && desktop == old(desktop)
      ensures ok ==> fresh(screen) && fresh(screen.buffer) && screen.IsEqualTo(desktop)
      ensures !ok ==> screen == old(screen)
    {
      ok := *;
      if ok {
        screen := new FrameBuffer(desktop.dim, desktop.pf);
      }
    }
  }
}
