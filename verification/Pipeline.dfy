/** The dirty-region pipeline over whole runs: detectors report, the screen goes
    on changing, and every extraction brings the backup up to date.

    The steps are those of `UpdateHandlers.UpdateHandler.Extract` (endings Normal
    and Unsynchronized), `Pollers.Poller.Poll` and the keeper, between two changes
    of the screen's properties. */
module Pipeline {
  import opened Geometry
  import opened Frames
  import opened PixelDiffs
  import opened ScreenDrivers
  import opened UpdateKeepers
  import opened KeeperMeaning
  import opened UpdateFilters
  import opened FilterMeaning
  import opened UpdateHandlers
  import opened Pollers
  import opened FrameBuffers

  /** `pending` are the pixels of screen copies that no extraction has picked up
      yet; `missed` are the pixels that the excluded region or a failed grab took
      away. */
  datatype State = State(
    keeper: UpdateContainer,
    excluded: Region,
    backup: Frame,
    display: Frame,
    pending: Region,
    missed: Region)

  datatype Step =
    | Report(region: Region, display: Frame)
    | ScreenCopy(rect: Rect, display: Frame)
    | Poll(screen: Frame)
    | Exclude(region: Region)
    | Extraction(report: DriverReport, rects: seq<Rect>, screen: Frame, filtered: UpdateContainer, backup: Frame)
    | FailedGrab(report: DriverReport, rects: seq<Rect>)

  ghost predicate RedrawnIn(before: Frame, region: Region, after: Frame) {
    after.Keys == before.Keys && forall p :: p in before && p !in region ==> after[p] == before[p]
  }

  /** A copy is picked up when the next report names a rectangle that covers it
      and that copy lands, or hits only dirty pixels. */
  predicate PicksUp(s: State, border: Rect, report: DriverReport) {
    && s.pending <= Crop(Pixels(report.copyRect), border)
    && (LandingRect(border, report.copyRect, report.copySrc).IsEmpty() ==> s.pending <= s.keeper.Dirty())
  }

  ghost predicate CanStep(s: State, border: Rect, step: Step) {
    match step
    case Report(region, display) => RedrawnIn(s.display, region, display)
    case ScreenCopy(rect, display) => RedrawnIn(s.display, Crop(Pixels(rect), border), display)
    case Poll(screen) => screen.Keys == s.backup.Keys && Shows(screen, Pixels(border), s.display)
    case Exclude(region) => true
    case Extraction(report, rects, screen, filtered, backup) =>
      var input := ToFilter(s.keeper, border, border, s.excluded, report);
      && PicksUp(s, border, report) && screen.Keys == s.backup.Keys
      && IsRectVector(rects, input.copiedRegion)
      && Synchronized(input, filtered, rects, s.backup, screen, backup)
      && Shows(screen, Checked(input), s.display)
    case FailedGrab(report, rects) =>
      IsRectVector(rects, ToFilter(s.keeper, border, border, s.excluded, report).copiedRegion)
  }

  ghost function Next(s: State, border: Rect, step: Step): State {
    match step
    case Report(region, display) => s.(keeper := AddChanged(s.keeper, border, region), display := display)
    case ScreenCopy(rect, display) => s.(pending := s.pending + Crop(Pixels(rect), border), display := display)
    case Poll(screen) =>
      s.(keeper := AddChanged(s.keeper, border, ChangedTiles(screen, s.backup)), pending := {}, missed := {})
    case Exclude(region) => s.(excluded := region)
    case Extraction(report, rects, screen, filtered, backup) =>
      var added := AddCopy(s.keeper, border, report.copyRect, report.copySrc);
      s.(keeper := added.Clear(),
         backup := backup,
         pending := {},
         missed := s.missed + added.Dirty() * s.excluded -
                   Checked(ToFilter(s.keeper, border, border, s.excluded, report)))
    case FailedGrab(report, rects) =>
      // The keeper is empty, and only the moves reached the backup.
      var added := AddCopy(s.keeper, border, report.copyRect, report.copySrc);
      s.(keeper := added.Clear(),
         backup := MovedAll(s.backup, rects, added.copySrc),
         pending := {},
         missed := s.missed + s.pending + added.Dirty())
  }

  /** Wherever the backup is out of date, somebody knows. */
  ghost predicate Tracked(s: State, border: Rect) {
    && s.backup.Keys == s.display.Keys == Pixels(border)
    && WithinBorder(s.keeper, border)
    && forall p :: p in s.backup && s.backup[p] != s.display[p] ==>
         p in s.keeper.Dirty() || p in s.pending || p in s.missed
  }

  /** The backup shows the display outside `missed`. */
  ghost predicate UpToDate(s: State) {
    s.backup.Keys == s.display.Keys && forall p :: p in s.backup && p !in s.missed ==> s.backup[p] == s.display[p]
  }

  lemma ReportKeepsTracked(s: State, border: Rect, region: Region, display: Frame)
    requires Tracked(s, border) && CanStep(s, border, Report(region, display))
    ensures Tracked(Next(s, border, Report(region, display)), border)
  {
    AddChangedDirtySet(s.keeper, border, region);
  }

  lemma ScreenCopyKeepsTracked(s: State, border: Rect, rect: Rect, display: Frame)
    requires Tracked(s, border) && CanStep(s, border, ScreenCopy(rect, display))
    ensures Tracked(Next(s, border, ScreenCopy(rect, display)), border)
  {
  }

  /** Polling is a valid reporter on its own: whatever was pending, missed or
      never reported, afterwards the keeper has every pixel that is out of date. */
  lemma PollTracksEverything(s: State, border: Rect, screen: Frame)
    requires s.backup.Keys == s.display.Keys == Pixels(border) && WithinBorder(s.keeper, border)
    requires CanStep(s, border, Poll(screen))
    ensures Tracked(Next(s, border, Poll(screen)), border)
  {
    var tiles := ChangedTiles(screen, s.backup);
    TilesCoverDiff(screen, s.backup);
    AddChangedDirtySet(s.keeper, border, tiles);
    forall p | p in s.backup && s.backup[p] != s.display[p] ensures p in tiles {
      assert p in Diff(screen, s.backup, screen.Keys);
    }
  }

  /** What the filter looks at is what was dirty, less the excluded part. */
  lemma CheckedDirt(s: State, border: Rect, report: DriverReport, p: Point)
    requires WithinBorder(s.keeper, border)
    requires p in AddCopy(s.keeper, border, report.copyRect, report.copySrc).Dirty() && p !in s.excluded
    ensures p in Checked(ToFilter(s.keeper, border, border, s.excluded, report))
  {
    AddCopyDirtySet(s.keeper, border, report.copyRect, report.copySrc);
  }

  /** Every extraction catches up: afterwards the backup differs from the
      display only at pixels that the excluded region took away. */
  lemma ExtractionCatchesUp(s: State, border: Rect, report: DriverReport, rects: seq<Rect>, screen: Frame,
                            filtered: UpdateContainer, backup: Frame)
    requires Tracked(s, border) && CanStep(s, border, Extraction(report, rects, screen, filtered, backup))
    ensures var s' := Next(s, border, Extraction(report, rects, screen, filtered, backup));
            Tracked(s', border) && UpToDate(s')
  {
    hide AddCopy, ToFilter, Synchronized, IsRectVector, Checked, PicksUp, Shows;
    var input := ToFilter(s.keeper, border, border, s.excluded, report);
    var s' := Next(s, border, Extraction(report, rects, screen, filtered, backup));
    FilterSynchronizes(input, filtered, rects, s.backup, screen, backup);
    forall p | p in s'.backup && p !in s'.missed ensures s'.backup[p] == s'.display[p] {
      if p in Checked(input) {
        ShownAt(screen, Checked(input), s.display, p);
      } else {
        CaughtUpAt(s, border, report, p);
      }
    }
    UpToDateIsTracked(s', border);
  }

  lemma ShownAt(screen: Frame, region: Region, display: Frame, p: Point)
    requires Shows(screen, region, display) && p in screen && p in region
    ensures p in display && screen[p] == display[p]
  {
  }

  lemma UpToDateIsTracked(s: State, border: Rect)
    requires UpToDate(s) && s.backup.Keys == Pixels(border) && s.keeper.Dirty() == {}
    ensures Tracked(s, border)
  {
  }

  /** A pixel that is neither checked nor missed was up to date before. */
  lemma CaughtUpAt(s: State, border: Rect, report: DriverReport, p: Point)
    requires Tracked(s, border) && PicksUp(s, border, report) && p in s.backup
    requires p !in Checked(ToFilter(s.keeper, border, border, s.excluded, report))
    requires p !in s.missed + AddCopy(s.keeper, border, report.copyRect, report.copySrc).Dirty() * s.excluded
    ensures s.backup[p] == s.display[p]
  {
    hide AddCopy, ToFilter;
    AddCopyDirtySet(s.keeper, border, report.copyRect, report.copySrc);
    if p in AddCopy(s.keeper, border, report.copyRect, report.copySrc).Dirty() {
      CheckedDirt(s, border, report, p);
    }
  }

  /** What a failed grab takes away is missed. */
  lemma FailedGrabKeepsTracked(s: State, border: Rect, report: DriverReport, rects: seq<Rect>)
    requires Tracked(s, border) && CanStep(s, border, FailedGrab(report, rects))
    ensures Tracked(Next(s, border, FailedGrab(report, rects)), border)
  {
    hide AddCopy, IsRectVector, MovedAll, ToFilter;
    var s' := Next(s, border, FailedGrab(report, rects));
    forall p | p in s'.backup && s'.backup[p] != s'.display[p] ensures p in s'.missed {
      FailedGrabMisses(s, border, report, rects, p);
    }
  }

  lemma FailedGrabMisses(s: State, border: Rect, report: DriverReport, rects: seq<Rect>, p: Point)
    requires Tracked(s, border) && p in s.backup
    requires IsRectVector(rects, ToFilter(s.keeper, border, border, s.excluded, report).copiedRegion)
    requires MovedAll(s.backup, rects,
                      AddCopy(s.keeper, border, report.copyRect, report.copySrc).copySrc)[p] != s.display[p]
    ensures p in s.missed + s.pending + AddCopy(s.keeper, border, report.copyRect, report.copySrc).Dirty()
  {
    hide AddCopy, IsRectVector, MovedAll, UnionOf;
    var added := AddCopy(s.keeper, border, report.copyRect, report.copySrc);
    AddCopyDirtySet(s.keeper, border, report.copyRect, report.copySrc);
    UnionOfRectVector(rects, ToFilter(s.keeper, border, border, s.excluded, report).copiedRegion);
    if p !in UnionOf(rects) {
      MovesStayInside(s.backup, rects, added.copySrc, p);
    }
  }

  lemma StepKeepsTracked(s: State, border: Rect, step: Step)
    requires Tracked(s, border) && CanStep(s, border, step)
    ensures Tracked(Next(s, border, step), border)
  {
    match step
    case Report(region, display) => ReportKeepsTracked(s, border, region, display);
    case ScreenCopy(rect, display) => ScreenCopyKeepsTracked(s, border, rect, display);
    case Poll(screen) => PollTracksEverything(s, border, screen);
    case Exclude(region) =>
    case Extraction(report, rects, screen, filtered, backup) =>
      ExtractionCatchesUp(s, border, report, rects, screen, filtered, backup);
    case FailedGrab(report, rects) => FailedGrabKeepsTracked(s, border, report, rects);
  }

  // ---------- Failed grabs ----------

  /** What is missed when, as in the code, nobody remembers what a failed grab
      took away. */
  ghost function StillMissed(s: State, border: Rect, report: DriverReport): Region {
    s.missed + AddCopy(s.keeper, border, report.copyRect, report.copySrc).Dirty() * s.excluded
  }

  ghost function AfterFailedGrab(s: State, border: Rect, report: DriverReport, rects: seq<Rect>): State {
    Next(s, border, FailedGrab(report, rects)).(missed := StillMissed(s, border, report))
  }

  /** Every pixel that is not excluded or missed already is clean and stays in
      its place. */
  ghost predicate NothingToLose(s: State, border: Rect, report: DriverReport, rects: seq<Rect>) {
    var added := AddCopy(s.keeper, border, report.copyRect, report.copySrc);
    forall p :: p in Pixels(border) && p !in StillMissed(s, border, report) ==>
      p !in s.keeper.Dirty() + s.pending && SourceOf(rects, added.copySrc, Pixels(border), p) == p
  }

  ghost predicate SurvivesFailedGrab(s: State, border: Rect, report: DriverReport, rects: seq<Rect>) {
    forall backup: Frame, display: Frame ::
      var t := s.(backup := backup, display := display);
      Tracked(t, border) ==> Tracked(AfterFailedGrab(t, border, report, rects), border)
  }

  /** A failed grab empties the keeper although the backup stays as it was.  For
      all pictures that does no harm if and only if there was nothing to lose. */
  lemma FailedGrabKeepsTrackedIff(s: State, border: Rect, report: DriverReport, rects: seq<Rect>)
    requires WithinBorder(s.keeper, border)
    ensures SurvivesFailedGrab(s, border, report, rects) <==> NothingToLose(s, border, report, rects)
  {
    hide AddCopy, MovedAll, SourceOf, Pixels;
    var src := AddCopy(s.keeper, border, report.copyRect, report.copySrc).copySrc;
    if NothingToLose(s, border, report, rects) {
      forall backup: Frame, display: Frame | Tracked(s.(backup := backup, display := display), border)
        ensures Tracked(AfterFailedGrab(s.(backup := backup, display := display), border, report, rects), border)
      {
        NothingLost(s.(backup := backup, display := display), border, report, rects);
      }
    } else {
      var p :| p in Pixels(border) && p !in StillMissed(s, border, report) &&
        !(p !in s.keeper.Dirty() + s.pending && SourceOf(rects, src, Pixels(border), p) == p);
      SomethingLost(s, border, report, rects, p);
    }
  }

  lemma NothingLost(s: State, border: Rect, report: DriverReport, rects: seq<Rect>)
    requires Tracked(s, border) && NothingToLose(s, border, report, rects)
    ensures Tracked(AfterFailedGrab(s, border, report, rects), border)
  {
    hide AddCopy, MovedAll, SourceOf;
    var src := AddCopy(s.keeper, border, report.copyRect, report.copySrc).copySrc;
    forall p | p in s.backup && MovedAll(s.backup, rects, src)[p] != s.display[p]
      ensures p in StillMissed(s, border, report)
    {
      MovedFromSource(s.backup, rects, src, p);
    }
  }

  lemma SomethingLost(s: State, border: Rect, report: DriverReport, rects: seq<Rect>, p: Point)
    requires WithinBorder(s.keeper, border)
    requires p in Pixels(border) && p !in StillMissed(s, border, report)
    requires p in s.keeper.Dirty() + s.pending ||
             SourceOf(rects, AddCopy(s.keeper, border, report.copyRect, report.copySrc).copySrc, Pixels(border), p) != p
    ensures !SurvivesFailedGrab(s, border, report, rects)
  {
    hide AddCopy, MovedAll, SourceOf, Tracked;
    var src := AddCopy(s.keeper, border, report.copyRect, report.copySrc).copySrc;
    var q := SourceOf(rects, src, Pixels(border), p);
    // A stale pixel that was known, or a pixel that is moved although it was right.
    var backup := OneLit(Pixels(border), q);
    var display := if q == p then OneLit(Pixels(border), p)[p := [0]] else backup;
    var t := s.(backup := backup, display := display);
    assert Tracked(t, border) by {
      StalePixelIsTracked(t, border, p);
    }
    assert backup.Keys == Pixels(border) && SourceOf(rects, src, backup.Keys, p) == q;
    MovedFromSource(backup, rects, src, p);
    StalePixelIsLost(AfterFailedGrab(t, border, report, rects), border, p);
  }

  lemma StalePixelIsTracked(s: State, border: Rect, p: Point)
    requires s.backup.Keys == s.display.Keys == Pixels(border) && WithinBorder(s.keeper, border)
    requires s.backup != s.display ==> p in s.keeper.Dirty() + s.pending
    requires forall x :: x in s.backup && x != p ==> s.backup[x] == s.display[x]
    ensures Tracked(s, border)
  {
  }

  lemma StalePixelIsLost(s: State, border: Rect, p: Point)
    requires p in s.backup && p in s.display && s.backup[p] != s.display[p]
    requires s.keeper.Dirty() == {} && s.pending == {} && p !in s.missed
    ensures !Tracked(s, border)
  {
  }

  // ---------- Runs ----------

  ghost function Run(s: State, border: Rect, steps: seq<Step>): State {
    if steps == [] then s else Next(Run(s, border, steps[..|steps| - 1]), border, steps[|steps| - 1])
  }

  ghost predicate CanRun(s: State, border: Rect, steps: seq<Step>) {
    forall i :: 0 <= i < |steps| ==> CanStep(Run(s, border, steps[..i]), border, steps[i])
  }

  lemma {:induction false} RunKeepsTracked(s: State, border: Rect, steps: seq<Step>)
    requires Tracked(s, border) && CanRun(s, border, steps)
    ensures Tracked(Run(s, border, steps), border)
  {
    hide Tracked, CanStep, Next;
    if steps != [] {
      var earlier := steps[..|steps| - 1];
      assert forall i :: 0 <= i < |earlier| ==> earlier[..i] == steps[..i];
      RunKeepsTracked(s, border, earlier);
      StepKeepsTracked(Run(s, border, earlier), border, steps[|steps| - 1]);
    }
  }

  /** In every run, every extraction leaves the backup up to date outside the
      pixels that were excluded. */
  lemma RunExtractsUpToDate(s: State, border: Rect, steps: seq<Step>)
    requires Tracked(s, border) && CanRun(s, border, steps)
    requires steps != [] && steps[|steps| - 1].Extraction?
    ensures UpToDate(Run(s, border, steps))
  {
    hide Tracked, UpToDate, CanStep, Next;
    var earlier, last := steps[..|steps| - 1], steps[|steps| - 1];
    assert forall i :: 0 <= i < |earlier| ==> earlier[..i] == steps[..i];
    RunKeepsTracked(s, border, earlier);
    ExtractionCatchesUp(Run(s, border, earlier), border, last.report, last.rects, last.screen, last.filtered,
                        last.backup);
  }

  /** Nothing was excluded, and no grab failed since the last polling turn. */
  predicate MissesNothing(steps: seq<Step>) {
    && (forall i :: 0 <= i < |steps| ==> steps[i].Exclude? ==> steps[i].region == {})
    && NoFailureSincePoll(steps)
  }

  predicate NoFailureSincePoll(steps: seq<Step>) {
    steps == [] || steps[|steps| - 1].Poll? ||
    (!steps[|steps| - 1].FailedGrab? && NoFailureSincePoll(steps[..|steps| - 1]))
  }

  lemma {:induction false} RunExcludesNothing(s: State, border: Rect, steps: seq<Step>)
    requires s.excluded == {}
    requires forall i :: 0 <= i < |steps| ==> steps[i].Exclude? ==> steps[i].region == {}
    ensures Run(s, border, steps).excluded == {}
  {
    if steps != [] {
      RunExcludesNothing(s, border, steps[..|steps| - 1]);
    }
  }

  lemma {:induction false} RunMissesNothing(s: State, border: Rect, steps: seq<Step>)
    requires s.excluded == {} && s.missed == {} && MissesNothing(steps)
    ensures Run(s, border, steps).missed == {}
  {
    if steps != [] {
      RunExcludesNothing(s, border, steps[..|steps| - 1]);
      if !steps[|steps| - 1].Poll? {
        RunMissesNothing(s, border, steps[..|steps| - 1]);
      }
    }
  }

  /** With nothing excluded every extraction makes the two pictures equal, also
      after failed grabs, once a polling turn succeeded in between. */
  lemma RunExtractsEqual(s: State, border: Rect, steps: seq<Step>)
    requires Tracked(s, border) && CanRun(s, border, steps) && s.excluded == {} && s.missed == {}
    requires steps != [] && steps[|steps| - 1].Extraction? && MissesNothing(steps)
    ensures Run(s, border, steps).backup == Run(s, border, steps).display
  {
    hide Run, CanRun, Tracked, UpToDate, MissesNothing;
    RunExtractsUpToDate(s, border, steps);
    RunMissesNothing(s, border, steps);
    UpToDateIsEqual(Run(s, border, steps));
  }

  lemma UpToDateIsEqual(s: State)
    requires UpToDate(s) && s.missed == {}
    ensures s.backup == s.display
  {
  }

  /** The handler starts tracked: its constructor marks the whole screen. */
  lemma StartsTracked(border: Rect, backup: Frame, display: Frame)
    requires backup.Keys == display.Keys == Pixels(border)
    ensures Tracked(State(AddChanged(EMPTY_CONTAINER, border, Pixels(border)), {}, backup, display, {}, {}), border)
  {
  }

  // ---------- The objects take these steps ----------

  /** The state that the objects are in; what is pending and missed is history. */
  ghost predicate Represents(s: State, h: UpdateHandler)
    requires h.Valid()
    reads h, h.keeper, h.driver, h.driver.screen, h.driver.desktop, h.filter, h.backup, h.filter.grabOptimizator,
          h.backup.buffer, h.driver.desktop.buffer
  {
    && s.keeper == h.keeper.container && s.excluded == h.keeper.excludedRegion
    && s.backup == h.backup.Content() && s.display == h.driver.desktop.Content()
  }

  /** A normal ending of `extract` is an extraction step, and so it catches up;
      an unsynchronized one is a failed grab. */
  method ExtractTracked(h: UpdateHandler, report: DriverReport, ghost s: State)
    returns (c: UpdateContainer, ending: Ending, ghost s': State)
    requires h.Valid() && Represents(s, h) && Tracked(s, h.keeper.borderRect) && PicksUp(s, h.keeper.borderRect, report)
    modifies h.keeper`container, h.keeper`borderRect, h`absoluteRect, h`fullUpdateRequested,
             h.backup, h.backup.buffer, h.driver`screen, h.driver.screen.buffer, h.filter.grabOptimizator
    ensures ending in {Normal, Unsynchronized} ==> h.Valid() && Represents(s', h) && Tracked(s', h.keeper.borderRect)
    ensures ending == Normal ==> UpToDate(s')
  {
    hide Tracked, PicksUp, UpToDate, Synchronized, Shows, IsRectVector, AddCopy, MovedAll, FrameBuffer.Content,
         Dimension.Area, Checked;
    ghost var rects, filtered;
    ghost var border := h.keeper.borderRect;
    c, ending, rects, filtered := h.Extract(report);
    s' := s;
    if ending == Normal {
      ghost var step := Extraction(report, rects, h.driver.screen.Content(), filtered, h.backup.Content());
      ExtractionCatchesUp(s, border, report, rects, h.driver.screen.Content(), filtered, h.backup.Content());
      s' := Next(s, border, step);
    } else if ending == Unsynchronized {
      FailedGrabKeepsTracked(s, border, report, rects);
      s' := Next(s, border, FailedGrab(report, rects));
    }
  }

  /** A turn of the poller whose grab succeeds is a polling step. */
  method PollTracked(poller: Poller, h: UpdateHandler, ghost s: State) returns (ghost grabbed: bool, ghost s': State)
    requires h.Valid() && poller.keeper == h.keeper && poller.driver == h.driver && poller.backup == h.backup
    requires h.driver.screen.IsEqualTo(h.backup) && h.driver.desktop.IsEqualTo(h.backup)
    requires Represents(s, h) && WithinBorder(s.keeper, h.keeper.borderRect)
    modifies h.keeper`container, h.driver.screen.buffer
    ensures grabbed ==> h.Valid() && Represents(s', h) && Tracked(s', h.keeper.borderRect)
  {
    hide Tracked, Shows, FrameBuffer.Content, Dimension.Area, ChangedTiles, WithinBorder, Pixels;
    grabbed := poller.Poll();
    s' := s;
    if grabbed {
      ghost var step := Poll(h.driver.screen.Content());
      PollTracksEverything(s, h.keeper.borderRect, h.driver.screen.Content());
      s' := Next(s, h.keeper.borderRect, step);
    }
  }
}
