/** The update handler (desktop/UpdateHandlerImpl.cpp): keeper, driver, filter and
    backup picture at work together. */
module UpdateHandlers {
  import opened Geometry
  import opened Frames
  import opened FrameBuffers
  import opened PixelDiffs
  import opened ScreenDrivers
  import opened UpdateKeepers
  import opened UpdateFilters
  import opened GrabOptimizators

  /** What the screen driver says when it is asked. */
  datatype DriverReport = DriverReport(
    copyRect: Rect,
    copySrc: Point,
    video: Region,
    propertiesChanged: bool,
    sizeChanged: bool,
    cursorPos: Point)

  const APPLY_TRY_COUNT := 3

  /** The container that reaches the filter. */
  function ToFilter(c: UpdateContainer, border: Rect, buffer: Rect, excluded: Region,
                    report: DriverReport): UpdateContainer {
    Extracted(AddCopy(c, border, report.copyRect, report.copySrc), border, excluded)
      .(videoRegion := report.video * Pixels(buffer))
  }

  lemma CheckedInside(c: UpdateContainer, border: Rect, excluded: Region, report: DriverReport)
    ensures Checked(ToFilter(c, border, border, excluded, report)) <= Pixels(border)
  {
    hide AddCopy;
  }

  /** The container that leaves the handler when the screen properties hold. */
  function Presented(filtered: UpdateContainer, absolute: Rect, screen: Rect, cursorPos: Point): UpdateContainer {
    filtered.(
      changedRegion := if absolute.IsEmpty() then filtered.changedRegion else filtered.changedRegion + Pixels(screen),
      cursorPos := cursorPos)
  }

  datatype Ending = Normal | Unsynchronized | Restarted | Thrown

  /** The container that an extraction delivers: what the filter made of its
      input, presented, or cleared when the backup started over. */
  ghost predicate Delivers(input: UpdateContainer, filtered: UpdateContainer, absolute: Rect, screen: Rect,
                           report: DriverReport, backupDim: Dimension, workDim: Dimension, ending: Ending,
                           c: UpdateContainer) {
    && filtered == (if ending == Unsynchronized then input else input.(changedRegion := filtered.changedRegion))
    && (ending in {Normal, Unsynchronized} ==> c == Presented(filtered, absolute, screen, report.cursorPos))
    && (ending == Restarted ==>
          c == filtered.(screenSizeChanged := filtered.screenSizeChanged || report.sizeChanged || backupDim != workDim,
                         changedRegion := {}, copiedRegion := {}, cursorPos := report.cursorPos))
  }

  lemma DeliversAfterRestart(input: UpdateContainer, filtered: UpdateContainer, absolute: Rect, screen: Rect,
                             report: DriverReport, backupDim: Dimension, workDim: Dimension, c: UpdateContainer,
                             c': UpdateContainer)
    requires filtered == input.(changedRegion := filtered.changedRegion)
    requires c.(cursorPos := report.cursorPos) == Presented(filtered, absolute, screen, report.cursorPos)
    requires c' == c.(screenSizeChanged := c.screenSizeChanged || report.sizeChanged || backupDim != workDim,
                      changedRegion := {}, copiedRegion := {})
    ensures Delivers(input, filtered, absolute, screen, report, backupDim, workDim, Restarted,
                     c'.(cursorPos := report.cursorPos))
  {
    var p := c.(cursorPos := report.cursorPos);
    assert p.screenSizeChanged == c.screenSizeChanged;
    assert p.(screenSizeChanged := c'.screenSizeChanged, changedRegion := {}, copiedRegion := {}) ==
           c'.(cursorPos := report.cursorPos);
  }

  lemma DeliversInPlace(input: UpdateContainer, filtered: UpdateContainer, absolute: Rect, screen: Rect,
                        report: DriverReport, dim: Dimension, ending: Ending, c: UpdateContainer)
    requires filtered == if ending == Unsynchronized then input else input.(changedRegion := filtered.changedRegion)
    requires ending in {Normal, Unsynchronized}
    requires c.(cursorPos := report.cursorPos) == Presented(filtered, absolute, screen, report.cursorPos)
    ensures Delivers(input, filtered, absolute, screen, report, dim, dim, ending, c.(cursorPos := report.cursorPos))
  {
  }

  /** Every pixel of the driver's video region inside the buffer is handed out, and
      no other; so is the cursor position that the driver tells.  Flags that the
      keeper held go out with the container, and a restart adds the size flag. */
  lemma DeliveredProperties(c: UpdateContainer, border: Rect, buffer: Rect, excluded: Region, report: DriverReport,
                            filtered: UpdateContainer, absolute: Rect, screen: Rect, backupDim: Dimension,
                            workDim: Dimension, ending: Ending, out: UpdateContainer)
    requires ending != Thrown
    requires Delivers(ToFilter(c, border, buffer, excluded, report), filtered, absolute, screen, report, backupDim,
                      workDim, ending, out)
    ensures out.videoRegion == report.video * Pixels(buffer) && out.cursorPos == report.cursorPos
    ensures out.cursorPosChanged == c.cursorPosChanged && out.cursorShapeChanged == c.cursorShapeChanged
    ensures out.screenSizeChanged <==>
            c.screenSizeChanged || (ending == Restarted && (report.sizeChanged || backupDim != workDim))
  {
    hide LandingRect;
  }

  class UpdateHandler {
    var keeper: UpdateKeeper
    var driver: ScreenDriver
    var filter: UpdateFilter
    var backup: FrameBuffer
    var absoluteRect: Rect
    var fullUpdateRequested: bool

    ghost predicate Valid()
      reads this, keeper, driver, driver.screen, driver.desktop, filter, backup, filter.grabOptimizator
    {
      && filter.driver == driver && filter.frameBuffer == backup && filter.Valid()
      && backup != driver.screen && backup != driver.desktop
      && keeper.borderRect == driver.screen.dim.GetRect()
    }

    constructor (driver: ScreenDriver)
      requires driver.Valid()
      ensures Valid() && this.driver == driver
      ensures fresh(keeper) && fresh(filter) && fresh(backup) && fresh(filter.grabOptimizator) && fresh(backup.buffer)
      ensures backup.IsEqualTo(driver.screen) && keeper.excludedRegion == {}
      ensures absoluteRect == backup.dim.GetRect() && keeper.container.changedRegion == Pixels(absoluteRect)
      ensures keeper.container == AddChanged(EMPTY_CONTAINER, keeper.borderRect, Pixels(absoluteRect))
    {
      this.driver := driver;
      var fb := new FrameBuffer(driver.screen.dim, driver.screen.pf);
      backup := fb;
      var border := fb.dim.GetRect();
      keeper := new UpdateKeeper(border);
      filter := new UpdateFilter(driver, fb);
      absoluteRect := border;
      fullUpdateRequested := false;
      new;
      // So the first extraction grabs everything.
      keeper.AddChangedRect(absoluteRect);
    }

    method SetFullUpdateRequested(region: Region)
      requires Valid()
      modifies keeper`container, this`fullUpdateRequested
      ensures Valid() && fullUpdateRequested
      ensures keeper.container == AddChanged(old(keeper.container), keeper.borderRect, region)
    {
      keeper.AddChangedRegion(region);
      fullUpdateRequested := true;
    }

    method SetExcludedRegion(region: Region)
      requires Valid()
      modifies keeper`excludedRegion
      ensures Valid() && keeper.excludedRegion == region
    {
      keeper.SetExcludedRegion(region);
    }

    /** The other process decides what the backup starts from. */
    method InitFrameBuffer(fb: FrameBuffer)
      requires Valid() && fb.Valid() && fb != backup
      modifies backup
      ensures Valid() && fresh(backup.buffer) && backup.IsEqualTo(fb) && backup.Content() == fb.Content()
    {
      hide FrameBuffer.Content, Dimension.Area;
      backup.Clone(fb);
    }

    /** Up to three tries to apply new screen properties. */
    method ApplyNewScreenProperties() returns (applied: bool, ghost tries: nat)
      requires Valid()
      modifies driver`screen
      ensures driver.Valid() && driver.desktop == old(driver.desktop)
      ensures 1 <= tries <= APPLY_TRY_COUNT && (!applied ==> tries == APPLY_TRY_COUNT)
      ensures applied ==> fresh(driver.screen) && fresh(driver.screen.buffer) && driver.screen.IsEqualTo(driver.desktop)
      ensures !applied ==> driver.screen == old(driver.screen)
    {
      var left := APPLY_TRY_COUNT;
      tries := 0;
      applied := false;
      while left > 0 && !applied
        invariant 0 <= left <= APPLY_TRY_COUNT && tries + left == APPLY_TRY_COUNT
        invariant driver.Valid() && driver.desktop == old(driver.desktop)
        invariant applied ==>
                    fresh(driver.screen) && fresh(driver.screen.buffer) && driver.screen.IsEqualTo(driver.desktop) &&
                    tries >= 1
        invariant !applied ==> driver.screen == old(driver.screen)
      {
        applied := driver.ApplyNewScreenProperties();
        left, tries := left - 1, tries + 1;
      }
    }

    /** The first half of `extract`: from the keeper through the filter. */
    method ExtractAndFilter(report: DriverReport)
      returns (c: UpdateContainer, outcome: Outcome, ghost rects: seq<Rect>, ghost filtered: UpdateContainer)
      requires Valid()
      modifies keeper`container, this`absoluteRect, backup.buffer, driver.screen.buffer, filter.grabOptimizator
      ensures Valid() && absoluteRect.IsEmpty()
      ensures keeper.container == AddCopy(old(keeper.container), keeper.borderRect, report.copyRect,
                                          report.copySrc).Clear()
      ensures outcome == ShapesDiffer <==> !driver.screen.IsEqualTo(backup)
      ensures var input := ToFilter(old(keeper.container), keeper.borderRect, backup.dim.GetRect(),
                                    keeper.excludedRegion, report);
              filtered == if outcome == Done then input.(changedRegion := filtered.changedRegion) else input
      ensures PassedFilter(ToFilter(old(keeper.container), keeper.borderRect, backup.dim.GetRect(),
                                    keeper.excludedRegion, report),
                           filtered, rects, outcome, old(backup.Content()), driver.screen.Content(), backup.Content(),
                           driver.desktop.Content())
      ensures c.(cursorPos := report.cursorPos) ==
              Presented(filtered, old(absoluteRect), driver.screen.dim.GetRect(), report.cursorPos)
    {
      hide FrameBuffer.Content, Dimension.Area, PassedFilter, OnlyRefreshed, AddCopy, Pixels, Checked,
           GrabOptimizator.Valid;
      keeper.AddCopyRect(report.copyRect, report.copySrc);
      c := keeper.Extract();
      var fbRect := backup.dim.GetRect();
      c := c.(videoRegion := report.video * Pixels(fbRect));
      CheckedInside(old(keeper.container), keeper.borderRect, keeper.excludedRegion, report);
      ghost var input := ToFilter(old(keeper.container), keeper.borderRect, fbRect, keeper.excludedRegion, report);
      assert c == input;
      c, outcome, rects := filter.Filter(c);
      filtered := c;
      c := AddAbsoluteRect(c);
    }

    /** A full update that is still due goes out with this container. */
    method AddAbsoluteRect(c: UpdateContainer) returns (c': UpdateContainer)
      modifies this`absoluteRect
      ensures absoluteRect.IsEmpty()
      ensures c' == Presented(c, old(absoluteRect), driver.screen.dim.GetRect(), c.cursorPos)
    {
      hide Pixels;
      c' := c;
      if !absoluteRect.IsEmpty() {
        c' := c'.(changedRegion := c'.changedRegion + Pixels(driver.screen.dim.GetRect()));
        absoluteRect := Rect(0, 0, 0, 0);
      }
    }

    /** The work buffer and the backup are as the display is, and the whole screen is pending. */
    ghost predicate StartedOver()
      reads `absoluteRect, `backup, backup, backup.buffer, `driver, driver, driver.screen, driver.screen.buffer,
            driver.desktop
    {
      && absoluteRect == backup.dim.GetRect()
      && driver.screen.IsEqualTo(driver.desktop) && backup.IsEqualTo(driver.desktop)
      && driver.screen.Valid() && backup.Valid() && backup.Content() == driver.screen.Content()
    }

    /** New screen properties: the backup starts over from the new work buffer. */
    method Restart(report: DriverReport, c: UpdateContainer) returns (c': UpdateContainer, applied: bool)
      requires Valid()
      modifies this`absoluteRect, keeper`borderRect, driver`screen, backup
      ensures driver.desktop == old(driver.desktop) && backup == old(backup)
      ensures c'.screenSizeChanged ==
              (c.screenSizeChanged || report.sizeChanged || old(backup.dim) != old(driver.screen.dim))
      ensures !applied ==> driver.screen == old(driver.screen) && backup.buffer == old(backup.buffer)
      ensures applied ==> Valid() && fresh(driver.screen) && fresh(driver.screen.buffer) && fresh(backup.buffer)
      ensures applied ==> StartedOver()
      ensures applied ==> c' == c.(screenSizeChanged := c'.screenSizeChanged, changedRegion := {}, copiedRegion := {})
    {
      hide FrameBuffer.Content, Dimension.Area, GrabOptimizator.Valid, UpdateContainer.Clear;
      var currentDimension, newDimension := backup.dim, driver.GetScreenDimension();
      c' := c;
      if report.sizeChanged || currentDimension != newDimension {
        c' := c'.(screenSizeChanged := true);
      }
      ghost var tries;
      applied, tries := ApplyNewScreenProperties();
      if !applied {
        return;
      }
      backup.Clone(driver.screen);
      c' := c'.(changedRegion := {}, copiedRegion := {});
      absoluteRect := backup.dim.GetRect();
      keeper.SetBorderRect(absoluteRect);
    }

    method Extract(report: DriverReport)
      returns (c: UpdateContainer, ending: Ending, ghost rects: seq<Rect>, ghost filtered: UpdateContainer)
      requires Valid()
      modifies keeper`container, keeper`borderRect, this`absoluteRect, this`fullUpdateRequested,
               backup, backup.buffer, driver`screen, driver.screen.buffer, filter.grabOptimizator
      ensures ending != Thrown ==> Valid() && backup == old(backup)
      ensures backup.buffer == old(backup.buffer) || fresh(backup.buffer)
      ensures driver.screen == old(driver.screen) || (fresh(driver.screen) && fresh(driver.screen.buffer))
      ensures keeper.container == AddCopy(old(keeper.container), old(keeper.borderRect), report.copyRect,
                                          report.copySrc).Clear()
      ensures ending in {Restarted, Thrown} <==> report.propertiesChanged || !old(driver.screen.IsEqualTo(backup))
      ensures ending in {Normal, Unsynchronized} ==>
                && driver.screen == old(driver.screen) && backup.dim == old(backup.dim) && backup.pf == old(backup.pf)
                && keeper.borderRect == old(keeper.borderRect) && absoluteRect.IsEmpty()
                && PassedFilter(ToFilter(old(keeper.container), keeper.borderRect, backup.dim.GetRect(),
                                         keeper.excludedRegion, report),
                                filtered, rects, if ending == Normal then Done else GrabFailed,
                                old(backup.Content()), driver.screen.Content(), backup.Content(),
                                driver.desktop.Content())
      ensures ending != Thrown ==>
                Delivers(ToFilter(old(keeper.container), old(keeper.borderRect), old(backup.dim.GetRect()),
                                  keeper.excludedRegion, report),
                         filtered, old(absoluteRect), old(driver.screen.dim.GetRect()), report,
                         old(backup.dim), old(driver.screen.dim), ending, c)
      ensures ending != Thrown ==> !fullUpdateRequested
      ensures ending == Restarted ==> StartedOver()
    {
      hide FrameBuffer.Content, Dimension.Area, PassedFilter, AddCopy, ToFilter, Presented, StartedOver, Delivers,
           UpdateFilter.Valid, FrameBuffer.Valid, ScreenDriver.Valid, GrabOptimizator.Valid, UpdateContainer.Clear,
           Dimension.GetRect, Rect.IsEmpty;
      var outcome;
      ghost var screenRect := driver.screen.dim.GetRect();
      ghost var input := ToFilter(keeper.container, keeper.borderRect, backup.dim.GetRect(), keeper.excludedRegion,
                                  report);
      c, outcome, rects, filtered := ExtractAndFilter(report);
      ending := if outcome == Done then Normal else Unsynchronized;
      if report.propertiesChanged || !backup.IsEqualTo(driver.screen) {
        ghost var before := c;
        var applied;
        c, applied := Restart(report, c);
        ending := if applied then Restarted else Thrown;
        if !applied {
          return;
        }
        DeliversAfterRestart(input, filtered, old(absoluteRect), screenRect, report, old(backup.dim),
                             old(driver.screen.dim), before, c);
      } else {
        DeliversInPlace(input, filtered, old(absoluteRect), screenRect, report, backup.dim, ending, c);
      }
      c := c.(cursorPos := report.cursorPos);
      CheckCursorShape(c);
    }

    /** The end of `extract`; grabbing the shape itself is not part of this model. */
    method CheckCursorShape(c: UpdateContainer)
      modifies this`fullUpdateRequested
      ensures !fullUpdateRequested
    {
      if c.cursorShapeChanged || fullUpdateRequested {
        fullUpdateRequested := false;
      }
    }
  }
}
