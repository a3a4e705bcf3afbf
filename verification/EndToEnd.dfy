/** From the display of one process to the buffer of the other: the pipeline and
    the replica together, over whole sessions with restarts.

    A world is the two pictures with what the server's handler holds, and what
    the pipeline knows of the display.  Every step of the one is a step of the
    other. */
module EndToEnd {
  import opened Geometry
  import opened Regions
  import opened Frames
  import opened FrameBuffers
  import opened Gates
  import opened ExtractReplies
  import opened GrabOptimizators
  import opened ScreenDrivers
  import opened UpdateKeepers
  import opened UpdateFilters
  import opened UpdateHandlers
  import opened KeeperMeaning
  import opened Pollers
  import opened Replica
  import opened ReplicaSessions
  import Pipeline

  datatype World = World(link: Link, known: Pipeline.State)

  datatype Act =
    | Watch(step: Pipeline.Step)
    | Turn(display: Properties, shown: Frame)
    | Exchange(event: Event)

  ghost function Listing(l: Link, e: Event): seq<Rect>
    requires e.Extraction?
  {
    GetRectVector(l.server.Input(e.report).copiedRegion)
  }

  /** The detectors and the poller take steps of the pipeline; the display may turn
      to other properties at any time; and a driver tells before it grabs from a
      display that has. */
  ghost predicate CanAct(w: World, a: Act) {
    match a
    case Watch(step) =>
      !step.Extraction? && !step.FailedGrab? && Pipeline.CanStep(w.known, w.link.server.border, step)
    case Turn(display, shown) => shown.Keys == w.known.display.Keys
    case Exchange(e) =>
      && e.Extraction? && CanHappen(w.link, e)
      && (e.pass.ending == Restarted ==> e.pass.shown.Keys == Pixels(e.after.border))
      && (e.pass.ending != Restarted ==>
            && w.link.server.display == w.link.server.work && e.pass.shown == w.known.display
            && Pipeline.PicksUp(w.known, w.link.server.border, e.report))
  }

  ghost function LinkAfter(w: World, step: Pipeline.Step): Link {
    match step
    case Report(region, _) => Next(w.link, KeeperEvent(Redraw(region)))
    case Poll(screen) => Next(w.link, KeeperEvent(Redraw(ChangedTiles(screen, w.known.backup))))
    case Exclude(region) => Next(w.link, Exclude(region))
    case _ => w.link
  }

  /** What is known after an exchange.  After a restart nothing is, until the next
      polling turn. */
  ghost function KnownAfter(w: World, e: Event): Pipeline.State
    requires e.Extraction?
  {
    var border, rects := w.link.server.border, Listing(w.link, e);
    match e.pass.ending
    case Normal =>
      Pipeline.Next(w.known, border,
                    Pipeline.Extraction(e.report, rects, e.pass.screen, e.pass.filtered, e.after.picture.frame))
    case Unsynchronized => Pipeline.Next(w.known, border, Pipeline.FailedGrab(e.report, rects))
    case _ =>
      Pipeline.State(e.after.keeper, e.after.excluded, e.after.picture.frame, e.pass.shown, {}, Pixels(e.after.border))
  }

  ghost function After(w: World, a: Act): World
    requires a.Exchange? ==> a.event.Extraction?
  {
    match a
    case Watch(step) => World(LinkAfter(w, step), Pipeline.Next(w.known, w.link.server.border, step))
    case Turn(display, shown) =>
      World(Next(w.link, DisplayChanges(display)), w.known.(display := shown, missed := Pixels(w.link.server.border)))
    case Exchange(e) => World(Next(w.link, e), KnownAfter(w, e))
  }

  /** Both halves speak of the same keeper and the same backup. */
  ghost predicate IsJoined(w: World) {
    && w.known.keeper == w.link.server.keeper && w.known.excluded == w.link.server.excluded
    && w.known.backup == w.link.server.picture.frame
    && w.link.server.border == w.link.server.work.dim.GetRect()
  }

  /** The replica is in step, and the stale pixels of the backup are tracked,
      unless the backup is about to start over. */
  ghost predicate IsKnown(w: World) {
    && InStep(w.link) && IsJoined(w)
    && (w.link.server.work == w.link.server.Backup() ==> Pipeline.Tracked(w.known, w.link.server.border))
  }

  /** The client's buffer shows the display, but for missed pixels. */
  ghost predicate ClientShows(w: World) {
    && SameShape(w.link.client, w.link.server.picture) && w.link.client.frame.Keys == w.known.display.Keys
    && forall p :: p in w.link.client.frame && p !in w.known.missed ==> w.link.client.frame[p] == w.known.display[p]
  }

  // ---------- One step ----------

  lemma WatchStaysKnown(w: World, step: Pipeline.Step)
    requires IsKnown(w) && CanAct(w, Watch(step))
    ensures IsKnown(After(w, Watch(step)))
  {
    hide Pipeline.Tracked, Pipeline.CanStep, Pixels, ChangedTiles;
    if w.link.server.work == w.link.server.Backup() {
      Pipeline.StepKeepsTracked(w.known, w.link.server.border, step);
    }
  }

  lemma TurnStaysKnown(w: World, display: Properties, shown: Frame)
    requires IsKnown(w) && CanAct(w, Turn(display, shown))
    ensures IsKnown(After(w, Turn(display, shown)))
  {
  }

  /** A normal ending is an extraction of the pipeline. */
  lemma NormalIsExtraction(w: World, e: Event)
    requires IsKnown(w) && CanAct(w, Exchange(e)) && e.pass.ending == Normal
    ensures w.link.server.work == w.link.server.Backup()
    ensures Pipeline.CanStep(w.known, w.link.server.border,
                             Pipeline.Extraction(e.report, Listing(w.link, e), e.pass.screen, e.pass.filtered,
                                                 e.after.picture.frame))
  {
    hide Tells, AddCopy, GetRectVector, IsRectVector, Synchronized, Pipeline.Tracked, IsFull, Pixels;
    RectVectorLists(w.link.server.Input(e.report).copiedRegion);
  }

  lemma FailedIsFailedGrab(w: World, e: Event)
    requires IsKnown(w) && CanAct(w, Exchange(e)) && e.pass.ending == Unsynchronized
    ensures w.link.server.work == w.link.server.Backup()
    ensures Pipeline.CanStep(w.known, w.link.server.border, Pipeline.FailedGrab(e.report, Listing(w.link, e)))
    ensures KnownAfter(w, e).backup == e.after.picture.frame
  {
    hide Tells, AddCopy, GetRectVector, IsRectVector, MovedAll, Pipeline.Tracked, IsFull, Pixels;
    RectVectorLists(w.link.server.Input(e.report).copiedRegion);
  }

  lemma RestartStaysKnown(w: World, e: Event)
    requires IsKnown(w) && CanAct(w, Exchange(e)) && e.pass.ending == Restarted
    ensures IsJoined(After(w, Exchange(e)))
    ensures Pipeline.Tracked(After(w, Exchange(e)).known, After(w, Exchange(e)).link.server.border)
  {
    hide Tells, AddCopy, ToFilter, IsFull, InStep, Pixels, Received;
  }

  lemma NormalStaysJoined(w: World, e: Event)
    requires IsKnown(w) && CanAct(w, Exchange(e)) && e.pass.ending in {Normal, Unsynchronized}
    requires KnownAfter(w, e).backup == e.after.picture.frame
    ensures IsJoined(After(w, Exchange(e))) && After(w, Exchange(e)).link.server.border == w.link.server.border
  {
    hide Tells, AddCopy, GetRectVector, IsFull, InStep, Pixels, Received, Filters, Pipeline.Tracked, KnownAfter,
         ToFilter, Pipeline.PicksUp;
    KeeperAfter(w, e);
  }

  lemma KeeperAfter(w: World, e: Event)
    requires e.Extraction? && e.pass.ending in {Normal, Unsynchronized}
    ensures var added := AddCopy(w.known.keeper, w.link.server.border, e.report.copyRect, e.report.copySrc);
            KnownAfter(w, e).keeper == added.Clear() && KnownAfter(w, e).excluded == w.known.excluded
  {
    hide AddCopy, GetRectVector, ToFilter, MovedAll, Checked;
  }

  /** An exchange that is covered and leaves no size untold keeps all that is
      known; a normal one makes the client show the display. */
  lemma ExchangeStaysKnown(w: World, e: Event)
    requires IsKnown(w) && CanAct(w, Exchange(e)) && KeepsStep(w.link.server, e.report)
    ensures IsKnown(After(w, Exchange(e)))
    ensures e.pass.ending == Normal ==> ClientShows(After(w, Exchange(e)))
  {
    hide InStep, IsJoined, Pipeline.Tracked, Next, KnownAfter, CanHappen, Pipeline.CanStep, KeepsStep, Pipeline.PicksUp;
    EventKeepsInStep(w, e);
    match e.pass.ending
    case Normal =>
      NormalCatchesUp(w, e);
      NormalStaysJoined(w, e);
      NormalAgrees(w, e);
      UpToDateShows(After(w, Exchange(e)));
    case Unsynchronized =>
      FailedStaysTracked(w, e);
      NormalStaysJoined(w, e);
    case Restarted => RestartStaysKnown(w, e);
    case Thrown => NeverThrown(w, e);
  }

  lemma NeverThrown(w: World, e: Event)
    requires CanAct(w, Exchange(e))
    ensures e.pass.ending != Thrown
  {
    hide Tells, AddCopy, IsFull, Filters;
  }

  lemma EventKeepsInStep(w: World, e: Event)
    requires IsKnown(w) && CanAct(w, Exchange(e)) && KeepsStep(w.link.server, e.report)
    ensures InStep(Next(w.link, e))
  {
    hide InStep, Next, CanHappen, Pipeline.Tracked, KeepsStep, IsJoined;
    EventStaysInStep(w.link, e);
  }

  lemma NormalAgrees(w: World, e: Event)
    requires IsKnown(w) && CanAct(w, Exchange(e)) && KeepsStep(w.link.server, e.report) && e.pass.ending == Normal
    ensures Agree(Next(w.link, e))
  {
    hide InStep, Next, CanHappen, Pipeline.Tracked, IsJoined, Agree, Snapshot.Covers;
    NeverUntold(w, e);
    ExtractionStaysInStep(w.link, e);
  }

  lemma NeverUntold(w: World, e: Event)
    requires CanAct(w, Exchange(e)) && e.pass.ending == Normal
    ensures !w.link.server.Untold(e.report)
  {
    hide Tells, AddCopy, IsFull, Filters;
  }

  lemma NormalCatchesUp(w: World, e: Event)
    requires IsKnown(w) && CanAct(w, Exchange(e)) && e.pass.ending == Normal
    ensures Pipeline.Tracked(KnownAfter(w, e), w.link.server.border) && Pipeline.UpToDate(KnownAfter(w, e))
    ensures KnownAfter(w, e).backup == e.after.picture.frame
  {
    hide InStep, IsJoined, Pipeline.Tracked, Pipeline.UpToDate, Pipeline.CanStep, GetRectVector, Snapshot.Input,
         CanHappen, Pipeline.PicksUp;
    NormalIsExtraction(w, e);
    Pipeline.ExtractionCatchesUp(w.known, w.link.server.border, e.report, Listing(w.link, e), e.pass.screen,
                                 e.pass.filtered, e.after.picture.frame);
  }

  lemma FailedStaysTracked(w: World, e: Event)
    requires IsKnown(w) && CanAct(w, Exchange(e)) && e.pass.ending == Unsynchronized
    ensures Pipeline.Tracked(KnownAfter(w, e), w.link.server.border)
    ensures KnownAfter(w, e).backup == e.after.picture.frame
  {
    hide InStep, IsJoined, Pipeline.Tracked, Pipeline.CanStep, GetRectVector, Snapshot.Input, Pipeline.Next,
         CanHappen, Pipeline.PicksUp;
    FailedIsFailedGrab(w, e);
    Pipeline.FailedGrabKeepsTracked(w.known, w.link.server.border, e.report, Listing(w.link, e));
  }

  lemma UpToDateShows(w: World)
    requires IsJoined(w) && InStep(w.link) && Agree(w.link) && Pipeline.UpToDate(w.known)
    ensures ClientShows(w)
  {
  }

  lemma ActStaysKnown(w: World, a: Act)
    requires IsKnown(w) && CanAct(w, a) && (a.Exchange? ==> KeepsStep(w.link.server, a.event.report))
    ensures IsKnown(After(w, a))
  {
    hide IsKnown, CanAct, After, KeepsStep;
    match a
    case Watch(step) => WatchStaysKnown(w, step);
    case Turn(display, shown) => TurnStaysKnown(w, display, shown);
    case Exchange(e) => ExchangeStaysKnown(w, e);
  }

  // ---------- Runs ----------

  ghost function Run(w: World, acts: seq<Act>): World
    requires forall i :: 0 <= i < |acts| && acts[i].Exchange? ==> acts[i].event.Extraction?
  {
    if acts == [] then w else After(Run(w, acts[..|acts| - 1]), acts[|acts| - 1])
  }

  ghost predicate CanRun(w: World, acts: seq<Act>) {
    && (forall i :: 0 <= i < |acts| && acts[i].Exchange? ==> acts[i].event.Extraction?)
    && forall i :: 0 <= i < |acts| ==> CanAct(Run(w, acts[..i]), acts[i])
  }

  /** Before every exchange its reply is known to cover what will change, and no
      untold size is due. */
  ghost predicate IsCovered(w: World, acts: seq<Act>)
    requires forall i :: 0 <= i < |acts| && acts[i].Exchange? ==> acts[i].event.Extraction?
  {
    forall i :: 0 <= i < |acts| && acts[i].Exchange? ==>
      KeepsStep(Run(w, acts[..i]).link.server, acts[i].event.report)
  }

  lemma {:induction false} RunStaysKnown(w: World, acts: seq<Act>)
    requires IsKnown(w) && CanRun(w, acts) && IsCovered(w, acts)
    ensures IsKnown(Run(w, acts))
  {
    hide IsKnown, CanAct, After, KeepsStep;
    if acts != [] {
      var n := |acts| - 1;
      assert forall i :: 0 <= i < n ==> acts[..n][..i] == acts[..i];
      RunStaysKnown(w, acts[..n]);
      ActStaysKnown(Run(w, acts[..n]), acts[n]);
    }
  }

  /** In every session, restarts and failed grabs included, every exchange that
      ends normally leaves the client with the display, but for the pixels that
      were missed. */
  lemma RunShowsDisplay(w: World, acts: seq<Act>)
    requires IsKnown(w) && CanRun(w, acts) && IsCovered(w, acts)
    requires acts != [] && acts[|acts| - 1].Exchange? && acts[|acts| - 1].event.pass.ending == Normal
    ensures ClientShows(Run(w, acts))
  {
    hide IsKnown, CanAct, After, KeepsStep, ClientShows;
    var n := |acts| - 1;
    assert forall i :: 0 <= i < n ==> acts[..n][..i] == acts[..i];
    RunStaysKnown(w, acts[..n]);
    ExchangeStaysKnown(Run(w, acts[..n]), acts[n].event);
  }

  // ---------- Nothing excluded ----------

  /** No region is excluded, and no size is left untold. */
  ghost predicate IsPlain(w: World, acts: seq<Act>)
    requires forall i :: 0 <= i < |acts| && acts[i].Exchange? ==> acts[i].event.Extraction?
  {
    && (forall i :: 0 <= i < |acts| && acts[i].Watch? && acts[i].step.Exclude? ==> acts[i].step.region == {})
    && forall i :: 0 <= i < |acts| && acts[i].Exchange? ==>
         !Run(w, acts[..i]).link.server.UntoldSize(acts[i].event.report)
  }

  /** The last polling turn came after the last failed grab, restart or change of
      the display's properties. */
  predicate PolledSinceLoss(acts: seq<Act>) {
    acts == [] || var last := acts[|acts| - 1];
    || (last.Watch? && last.step.Poll?)
    || ((last.Watch? || (last.Exchange? && last.event.Extraction? && last.event.pass.ending == Normal)) &&
        PolledSinceLoss(acts[..|acts| - 1]))
  }

  /** The keeper is as the code keeps it, and nothing is excluded. */
  ghost predicate IsOpen(w: World) {
    WellFormed(w.link.server.keeper) && w.link.server.excluded == {} && w.known.excluded == {}
  }

  lemma ActStaysOpen(w: World, a: Act)
    requires CanAct(w, a) && IsOpen(w) && (a.Watch? && a.step.Exclude? ==> a.step.region == {})
    ensures IsOpen(After(w, a))
    ensures a.Exchange? ==> w.link.server.Covers(a.event.report)
  {
    hide WellFormed, Next, CanHappen, Pipeline.CanStep, Snapshot.Covers, Pipeline.PicksUp, ChangedTiles;
    match a
    case Watch(step) => WatchStaysOpen(w, step);
    case Turn(display, shown) => TurnStaysOpen(w, display, shown);
    case Exchange(e) =>
      EventCopiesAreSingle(w.link, e);
      KnownExclusion(w, e);
  }

  lemma TurnStaysOpen(w: World, display: Properties, shown: Frame)
    requires IsOpen(w)
    ensures IsOpen(After(w, Turn(display, shown)))
  {
    hide WellFormed;
  }

  lemma WatchStaysOpen(w: World, step: Pipeline.Step)
    requires IsOpen(w) && (step.Exclude? ==> step.region == {}) && !step.Extraction? && !step.FailedGrab?
    ensures IsOpen(After(w, Watch(step)))
  {
    hide WellFormed, ChangedTiles, AddChanged;
    match step
    case Report(region, _) => EventCopiesAreSingle(w.link, KeeperEvent(Redraw(region)));
    case Poll(screen) => EventCopiesAreSingle(w.link, KeeperEvent(Redraw(ChangedTiles(screen, w.known.backup))));
    case Exclude(region) => EventCopiesAreSingle(w.link, Exclude(region));
    case _ =>
  }

  /** Without exclusions a normal exchange misses nothing new. */
  lemma KnownExclusion(w: World, e: Event)
    requires CanAct(w, Exchange(e)) && IsOpen(w)
    ensures KnownAfter(w, e).excluded == {}
    ensures e.pass.ending == Normal && w.known.missed == {} ==> KnownAfter(w, e).missed == {}
  {
    hide AddCopy, GetRectVector, ToFilter, MovedAll, Checked, Tells, IsFull, Filters, WellFormed, Pipeline.PicksUp;
  }

  lemma {:induction false} RunStaysOpen(w: World, acts: seq<Act>)
    requires CanRun(w, acts) && IsPlain(w, acts) && IsOpen(w)
    ensures IsOpen(Run(w, acts)) && IsCovered(w, acts)
  {
    hide IsOpen, CanAct, After, Snapshot.Covers, Snapshot.UntoldSize;
    if acts != [] {
      var n := |acts| - 1;
      assert forall i :: 0 <= i < n ==> acts[..n][..i] == acts[..i];
      RunStaysOpen(w, acts[..n]);
      ActStaysOpen(Run(w, acts[..n]), acts[n]);
      forall i | 0 <= i < |acts| && acts[i].Exchange?
        ensures KeepsStep(Run(w, acts[..i]).link.server, acts[i].event.report)
      {
        if i < n {
          assert acts[..n][i] == acts[i] && acts[..n][..i] == acts[..i];
        }
      }
    }
  }

  /** A polling turn finds everything, and the other steps miss nothing new. */
  lemma ActMissesNothing(w: World, a: Act)
    requires CanAct(w, a) && IsOpen(w) && (w.known.missed == {} || (a.Watch? && a.step.Poll?))
    requires a.Watch? || (a.Exchange? && a.event.pass.ending == Normal)
    ensures After(w, a).known.missed == {}
  {
    hide LinkAfter, KnownAfter, ChangedTiles, AddChanged, WellFormed, CanHappen, Pipeline.PicksUp;
    match a
    case Watch(step) =>
    case Exchange(e) => KnownExclusion(w, e);
  }

  lemma PlainBefore(w: World, acts: seq<Act>)
    requires CanRun(w, acts) && IsPlain(w, acts) && acts != []
    ensures CanRun(w, acts[..|acts| - 1]) && IsPlain(w, acts[..|acts| - 1])
  {
    hide CanAct, After, Snapshot.UntoldSize;
    var n := |acts| - 1;
    assert forall i :: 0 <= i < n ==> acts[..n][..i] == acts[..i];
  }

  lemma {:induction false} RunMissesNothing(w: World, acts: seq<Act>)
    requires CanRun(w, acts) && IsPlain(w, acts) && IsOpen(w) && w.known.missed == {} && PolledSinceLoss(acts)
    ensures Run(w, acts).known.missed == {}
  {
    hide IsOpen, CanAct, After, IsPlain;
    if acts != [] {
      var n := |acts| - 1;
      PlainBefore(w, acts);
      RunStaysOpen(w, acts[..n]);
      if !(acts[n].Watch? && acts[n].step.Poll?) {
        RunMissesNothing(w, acts[..n]);
      }
      ActMissesNothing(Run(w, acts[..n]), acts[n]);
    }
  }

  /** While nothing is excluded, and once a polling turn followed the last failed
      grab, restart or change of properties, a normal exchange leaves the client
      with exactly what the display shows. */
  lemma RunShowsAll(w: World, acts: seq<Act>)
    requires IsKnown(w) && CanRun(w, acts) && IsPlain(w, acts)
    requires IsOpen(w) && w.known.missed == {} && PolledSinceLoss(acts)
    requires acts != [] && acts[|acts| - 1].Exchange? && acts[|acts| - 1].event.pass.ending == Normal
    ensures Run(w, acts).link.client.frame == Run(w, acts).known.display
  {
    hide IsKnown, CanAct, After, IsOpen, Run, IsCovered, IsPlain, PolledSinceLoss;
    RunStaysOpen(w, acts);
    RunShowsDisplay(w, acts);
    RunMissesNothing(w, acts);
  }

  // ---------- The objects take these steps ----------

  /** A session starts known: a new server has marked the whole screen. */
  lemma StartsKnown(l: Link, display: Frame)
    requires InStep(l) && l.server.excluded == {} && l.server.border == l.server.work.dim.GetRect()
    requires l.server.keeper == AddChanged(EMPTY_CONTAINER, l.server.border, Pixels(l.server.border))
    requires display.Keys == Pixels(l.server.border)
    ensures var w := World(l, Pipeline.State(l.server.keeper, {}, l.server.picture.frame, display, {}, {}));
            IsKnown(w) && IsOpen(w) && w.known.missed == {}
  {
    hide Pipeline.Tracked;
    if l.server.work == l.server.Backup() {
      Pipeline.StartsTracked(l.server.border, l.server.picture.frame, display);
    }
  }

  ghost predicate Represents(w: World, client: UpdateHandlerClient, server: UpdateHandlerServer)
    requires client.backup.Valid() && server.Valid()
    reads client, client.backup, client.backup.buffer, server, server.handler, server.handler.keeper,
          server.handler.driver, server.handler.driver.screen, server.handler.driver.desktop, server.handler.filter,
          server.handler.backup, server.handler.backup.buffer, server.handler.filter.grabOptimizator,
          server.handler.driver.desktop.buffer
  {
    w.link == LinkOf(client, server) && w.known.display == server.handler.driver.desktop.Content()
  }

  lemma RepresentsParts(w: World, client: UpdateHandlerClient, server: UpdateHandlerServer)
    requires client.backup.Valid() && server.Valid() && Represents(w, client, server) && IsKnown(w)
    ensures InStep(LinkOf(client, server))
    ensures w.known.display.Keys == Pixels(w.link.server.display.dim.GetRect())
  {
    hide Dimension.Area, Pixels, GrabOptimizator.Valid, Pipeline.Tracked, InStep;
  }

  lemma EventCanAct(w: World, e: Event)
    requires e.Extraction? && CanHappen(w.link, e)
    requires e.pass.shown.Keys == Pixels(w.link.server.display.dim.GetRect()) && e.pass.shown == w.known.display
    requires !w.link.server.StartsOver(e.report) ==>
               w.link.server.display == w.link.server.work &&
               Pipeline.PicksUp(w.known, w.link.server.border, e.report)
    ensures CanAct(w, Exchange(e))
  {
    hide Tells, AddCopy, IsFull, Filters, Pipeline.PicksUp, Pixels, ToFilter;
  }

  /** One exchange between the objects is an act of the world: it keeps what is
      known, and after a normal ending the client's buffer shows the display. */
  method ExchangeShown(client: UpdateHandlerClient, server: UpdateHandlerServer, report: DriverReport, shape: Shape,
                       gate: Gate, ghost w: World)
    returns (r: Result<UpdateContainer>, ending: Ending, ghost e: Event)
    requires client.backup.Valid() && server.Valid() && Apart(client, server) && gate.data == []
    requires Represents(w, client, server) && IsKnown(w) && KeepsStep(w.link.server, report)
    requires !w.link.server.StartsOver(report) ==>
               w.link.server.display == w.link.server.work && Pipeline.PicksUp(w.known, w.link.server.border, report)
    modifies client`cursorShape, client.backup, client.backup.buffer, gate,
             server`oldPf, server.handler.keeper`container, server.handler.keeper`borderRect,
             server.handler`absoluteRect, server.handler`fullUpdateRequested, server.handler.backup,
             server.handler.backup.buffer, server.handler.driver`screen, server.handler.driver.screen.buffer,
             server.handler.filter.grabOptimizator
    ensures e.Extraction? && e.report == report && e.pass.ending == ending
    ensures ending != Thrown && InRange(e.m, server.handler.backup.pf.BytesPerPixel()) ==>
              && r == Ok(ContainerOf(e.m)) && gate.data == []
              && client.backup.Valid() && server.Valid() && Apart(client, server)
              && CanAct(w, Exchange(e)) && IsKnown(After(w, Exchange(e)))
              && Represents(After(w, Exchange(e)), client, server)
              && (ending == Normal ==> ClientShows(After(w, Exchange(e))))
  {
    hide FrameBuffer.Content, Dimension.Area, InRange, GrabOptimizator.Valid, ScreenDriver.Valid, FrameBuffer.Valid,
         Pixels, CanHappen, IsKnown, KeepsStep, CanAct, ClientShows, Pipeline.PicksUp, Next, SnapshotOf, LinkOf, After;
    RepresentsParts(w, client, server);
    r, ending, e := ExchangeTracked(client, server, report, shape, gate);
    if ending != Thrown && InRange(e.m, server.handler.backup.pf.BytesPerPixel()) {
      EventCanAct(w, e);
      ExchangeStaysKnown(w, e);
      DisplayStays(w, e);
    }
  }

  /** An exchange does not change what the display shows. */
  lemma DisplayStays(w: World, e: Event)
    requires CanAct(w, Exchange(e)) && e.pass.shown == w.known.display
    ensures After(w, Exchange(e)).known.display == w.known.display && After(w, Exchange(e)).link == Next(w.link, e)
  {
    hide CanHappen, Pipeline.PicksUp, GetRectVector, AddCopy, ToFilter, MovedAll, Checked;
  }
}
