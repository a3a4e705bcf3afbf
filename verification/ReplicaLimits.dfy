/** Where the two desktop processes part: restarts of the backup that the client
    is not told of, and copied regions of several rectangles.  Each with the exact
    condition before the exchange, and with inputs that meet it. */
module ReplicaLimits {
  import opened Geometry
  import opened Regions
  import opened Frames
  import opened FrameBuffers
  import opened Codec
  import opened Gates
  import opened ExtractReplies
  import opened GrabOptimizators
  import opened ScreenDrivers
  import opened UpdateKeepers
  import opened UpdateFilters
  import opened UpdateHandlers
  import opened KeeperMeaning
  import opened FilterMeaning
  import opened Options
  import opened Replica
  import opened ReplicaSessions

  // ---------- Restarts that are not told ----------

  ghost function Restarts(s: Snapshot, report: DriverReport, frame: Frame): Snapshot {
    var border := s.display.dim.GetRect();
    Snapshot(AddCopy(s.keeper, s.border, report.copyRect, report.copySrc).Clear(), border, s.excluded, border,
             Picture(s.display.dim, s.display.pf, frame), s.display, s.display)
  }

  /** The message for a container without changed pixels. */
  ghost function BareReply(c: UpdateContainer, copy: Option<Copy>, shape: Shape): Reply {
    Reply(None, GetRectVector(c.videoRegion), [], copy, c.cursorPosChanged, c.cursorPos,
          if c.cursorShapeChanged then Some(shape) else None)
  }

  lemma BareReplyTells(c: UpdateContainer, copy: Option<Copy>, q: Picture, shape: Shape)
    requires !c.screenSizeChanged && c.changedRegion == {} && CopyTells(copy, c, q.pf.BytesPerPixel(), q.frame)
    ensures Tells(BareReply(c, copy, shape), c, q, shape)
    ensures ContainerOf(BareReply(c, copy, shape)).Dirty() ==
            if copy.Some? then Pixels(copy.value.patch.rect) else {}
  {
    hide CopyTells, IsRectVector, GetRectVector;
    RectVectorLists(c.videoRegion);
    NothingIsListed();
    assert RectsOf([]) == [];
  }

  lemma NothingIsListed()
    ensures IsRectVector([], {})
  {
    forall r: Rect | !r.IsEmpty() ensures Pixels(r) != {} {
      assert r.TopLeft() in Pixels(r);
    }
  }

  /** The restart of an extraction that has nothing to tell. */
  ghost function UntoldRestart(l: Link, report: DriverReport, frame: Frame, shape: Shape): Event {
    var pass := Pass(Restarted, EMPTY_CONTAINER, frame, frame);
    var c := l.server.Delivered(report, pass);
    Extraction(report, pass, c, BareReply(c, None, shape), shape, Restarts(l.server, report, frame))
  }

  /** Whatever the new work buffer shows, nothing forbids it. */
  lemma UntoldCanHappen(l: Link, report: DriverReport, frame: Frame, shape: Shape)
    requires l.server.Untold(report) && frame.Keys == Pixels(l.server.display.dim.GetRect())
    requires IsFull(Picture(l.server.display.dim, l.server.display.pf, frame))
    ensures CanHappen(l, UntoldRestart(l, report, frame, shape))
  {
    hide Tells, AddCopy, ToFilter, Pixels, IsFull, BareReply, Filters;
    var e := UntoldRestart(l, report, frame, shape);
    BareReplyTells(e.c, None, e.after.picture, shape);
  }

  /** The link with other pictures. */
  function WithPictures(l: Link, p: Frame, q: Frame): Link {
    l.(client := l.client.(frame := p), server := l.server.(picture := l.server.picture.(frame := q)))
  }

  /** Two pictures that client and server can have before the exchange. */
  ghost predicate CouldHave(l: Link, p: Frame, q: Frame) {
    var l' := WithPictures(l, p, q);
    InStep(l') && IsFull(l'.client) && IsFull(l'.server.picture)
  }

  /** Whatever the pictures are, whatever work buffer and display show, and
      whatever the filter finds, the exchange ends in agreement. */
  ghost predicate ExchangeAgrees(l: Link, report: DriverReport) {
    forall p: Frame, q: Frame, e: Event ::
      CouldHave(l, p, q) && e.Extraction? && e.report == report && CanHappen(WithPictures(l, p, q), e) ==>
      EndsAlike(Next(WithPictures(l, p, q), e))
  }

  ghost predicate EndsAlike(l: Link) {
    SameShape(l.client, l.server.picture) && Agree(l)
  }

  /** What the handler keeps to, and a picture that is not empty. */
  ghost predicate IsUsual(l: Link) {
    && SameShape(l.client, l.server.picture) && l.server.picture.pf.BytesPerPixel() > 0
    && !l.server.picture.dim.GetRect().IsEmpty() && l.server.border == l.server.work.dim.GetRect()
  }

  /** That is so if and only if no untold restart is due and the reply covers
      what will change. */
  lemma ExchangeAgreesIffTold(l: Link, report: DriverReport)
    requires IsUsual(l)
    ensures ExchangeAgrees(l, report) <==> !l.server.Untold(report) && l.server.Covers(report)
  {
    hide CanHappen, Next, Snapshot.Untold, Snapshot.Covers, IsUsual, CouldHave, EndsAlike;
    if l.server.Untold(report) {
      UntoldDisagrees(l, report);
    } else if !l.server.Covers(report) {
      UncoveredDisagrees(l, report);
    } else {
      forall p: Frame, q: Frame, e: Event |
        CouldHave(l, p, q) && e.Extraction? && e.report == report && CanHappen(WithPictures(l, p, q), e)
        ensures EndsAlike(Next(WithPictures(l, p, q), e))
      {
        ToldAgrees(l, p, q, e);
      }
    }
  }

  /** The guards read nothing of the pictures but their shape. */
  lemma GuardsSeeNoPixels(l: Link, p: Frame, q: Frame, report: DriverReport)
    ensures WithPictures(l, p, q).server.Untold(report) == l.server.Untold(report)
    ensures WithPictures(l, p, q).server.Covers(report) == l.server.Covers(report)
  {
    hide GetRectVector, OnlyFirstMoves, ToFilter;
  }

  lemma ToldAgrees(l: Link, p: Frame, q: Frame, e: Event)
    requires CouldHave(l, p, q) && e.Extraction? && CanHappen(WithPictures(l, p, q), e)
    requires !l.server.Untold(e.report) && l.server.Covers(e.report)
    ensures EndsAlike(Next(WithPictures(l, p, q), e))
  {
    hide CanHappen, Snapshot.TellsPicture, Snapshot.StartsOver, Snapshot.Covers, Snapshot.Untold, Received, IsFull;
    var l' := WithPictures(l, p, q);
    GuardsSeeNoPixels(l, p, q, e.report);
    UntoldSizeIsUntold(l'.server, e.report);
    ExtractionStaysInStep(l', e);
  }

  lemma UntoldSizeIsUntold(s: Snapshot, report: DriverReport)
    ensures s.UntoldSize(report) ==> s.Untold(report)
  {
  }

  const NO_SHAPE := Shape(Dimension(0, 0), Point(0, 0), [], [])

  /** A pixel of one byte value. */
  function Grey(bpp: nat, b: byte): (x: Pixel)
    ensures |x| == bpp && forall i :: 0 <= i < bpp ==> x[i] == b
  {
    seq(bpp, _ => b)
  }

  /** All pixels have one colour. */
  ghost function Plain(rect: Rect, x: Pixel): (f: Frame)
    ensures f.Keys == Pixels(rect)
  {
    map p | p in Pixels(rect) :: x
  }

  lemma TwoGreys(bpp: nat)
    requires bpp > 0
    ensures Grey(bpp, 0) != Grey(bpp, 1)
  {
    assert Grey(bpp, 0)[0] != Grey(bpp, 1)[0];
  }

  /** Both pictures are this one. */
  lemma SamePictures(l: Link, f: Frame)
    requires IsUsual(l) && f.Keys == Pixels(l.server.picture.dim.GetRect())
    requires forall p :: p in f ==> |f[p]| == l.server.picture.pf.BytesPerPixel()
    ensures CouldHave(l, f, f) && InStep(WithPictures(l, f, f)) && Agree(WithPictures(l, f, f))
  {
  }

  lemma OneDisagrees(l: Link, report: DriverReport, p: Frame, q: Frame, e: Event)
    requires CouldHave(l, p, q) && e.Extraction? && e.report == report && CanHappen(WithPictures(l, p, q), e)
    requires !EndsAlike(Next(WithPictures(l, p, q), e))
    ensures !ExchangeAgrees(l, report)
  {
  }

  lemma UntoldDisagrees(l: Link, report: DriverReport)
    requires IsUsual(l) && l.server.Untold(report)
    ensures !ExchangeAgrees(l, report)
  {
    hide CanHappen, Received, AddCopy, Pixels, Snapshot.TellsPicture, Snapshot.StartsOver, Snapshot.Untold,
         CouldHave, ExchangeAgrees, UntoldRestart, Snapshot.Covers;
    var bpp, rect := l.server.picture.pf.BytesPerPixel(), l.server.picture.dim.GetRect();
    var f, g := Plain(rect, Grey(bpp, 0)), Plain(l.server.display.dim.GetRect(), Grey(bpp, 1));
    SamePictures(l, f);
    GuardsSeeNoPixels(l, f, f, report);
    UntoldKeepsFormat(l.server, report);
    UntoldCanHappen(WithPictures(l, f, f), report, g, NO_SHAPE);
    UntoldParts(WithPictures(l, f, f), report, g, NO_SHAPE);
    TwoGreys(bpp);
    PlainDiffers(rect, Grey(bpp, 0), l.server.display.dim.GetRect(), Grey(bpp, 1));
    OneDisagrees(l, report, f, f, UntoldRestart(WithPictures(l, f, f), report, g, NO_SHAPE));
  }

  lemma UntoldKeepsFormat(s: Snapshot, report: DriverReport)
    requires s.Untold(report)
    ensures s.display.pf == s.picture.pf && s.Covers(report)
  {
  }

  lemma PlainDiffers(r: Rect, x: Pixel, r': Rect, y: Pixel)
    requires !r.IsEmpty() && x != y
    ensures Plain(r, x) != Plain(r', y)
  {
    assert r.TopLeft() in Pixels(r) && Plain(r, x)[r.TopLeft()] == x;
  }

  /** The client keeps its picture, and the server has the new one. */
  lemma UntoldParts(l: Link, report: DriverReport, frame: Frame, shape: Shape)
    requires InStep(l) && l.server.Untold(report) && CanHappen(l, UntoldRestart(l, report, frame, shape))
    ensures var e := UntoldRestart(l, report, frame, shape);
            && e.Extraction? && e.report == report
            && Next(l, e).client == l.client && Next(l, e).server.picture.frame == frame
  {
    hide CanHappen, Received, Pixels, Snapshot.Untold, Snapshot.Covers, Snapshot.TellsPicture, Snapshot.StartsOver,
         BareReply, AddCopy;
    UntoldKeepsFormat(l.server, report);
    ExtractionStaysInStep(l, UntoldRestart(l, report, frame, shape));
  }

  // ---------- Bytes for a picture ----------

  function Flat(pixels: seq<Pixel>): Bytes {
    if pixels == [] then [] else Flat(pixels[..|pixels| - 1]) + pixels[|pixels| - 1]
  }

  lemma {:induction false} FlatAt(pixels: seq<Pixel>, bpp: nat, k: nat)
    requires k < |pixels| && forall i :: 0 <= i < |pixels| ==> |pixels[i]| == bpp
    ensures |Flat(pixels)| == |pixels| * bpp
    ensures 0 <= k * bpp <= (k + 1) * bpp <= |Flat(pixels)| && PixelAt(Flat(pixels), bpp, k) == pixels[k]
  {
    var n := |pixels| - 1;
    FlatSize(pixels[..n], bpp);
    IndexBytes(k, |pixels|, bpp);
    Distribute(n, 1, bpp);
    if k < n {
      FlatAt(pixels[..n], bpp, k);
      assert Flat(pixels)[k * bpp..(k + 1) * bpp] == Flat(pixels[..n])[k * bpp..(k + 1) * bpp];
    } else {
      assert Flat(pixels)[n * bpp..(n + 1) * bpp] == pixels[n];
    }
  }

  lemma {:induction false} FlatSize(pixels: seq<Pixel>, bpp: nat)
    requires forall i :: 0 <= i < |pixels| ==> |pixels[i]| == bpp
    ensures |Flat(pixels)| == |pixels| * bpp
  {
    if pixels != [] {
      var n := |pixels| - 1;
      FlatSize(pixels[..n], bpp);
      Distribute(n, 1, bpp);
    }
  }

  /** Every picture can be sent. */
  lemma HasBytes(q: Picture, r: Rect) returns (bytes: Bytes)
    requires IsFull(q) && !r.IsEmpty()
    ensures ShowsRect(bytes, r, q.pf.BytesPerPixel(), q.frame)
  {
    hide Flat, Dimension.Area, PixelAt;
    var bpp, dim := q.pf.BytesPerPixel(), DimensionOf(r);
    var blank := Grey(bpp, 0);
    var at := (k: int) => Point(r.left + k % dim.width, r.top + k / dim.width);
    assert dim.width > 0;
    AreaNotNegative(dim, 1);
    var pixels := seq(dim.Area(), k requires 0 <= k < dim.Area() => if at(k) in q.frame then q.frame[at(k)] else blank);
    bytes := Flat(pixels);
    FlatSize(pixels, bpp);
    forall p | p in q.frame && r.Contains(p)
      ensures var o := Minus(p, r.TopLeft());
              o in ContentOf(bytes, dim, bpp) && ContentOf(bytes, dim, bpp)[o] == q.frame[p]
    {
      var o := Minus(p, r.TopLeft());
      assert dim.GetRect().Contains(o);
      var k := o.y * dim.width + o.x;
      IndexInside(dim, bpp, o);
      DivMod(o.y, dim.width, o.x);
      FlatAt(pixels, bpp, k);
    }
  }

  lemma DivMod(y: int, w: int, x: int)
    requires 0 <= x < w && 0 <= y
    ensures (y * w + x) / w == y && (y * w + x) % w == x
  {
    var d := (y * w + x) / w;
    assert d * w <= y * w + x < d * w + w;
    NextMultiple(d, y, w);
    NextMultiple(y, d, w);
  }

  lemma NextMultiple(a: int, b: int, w: nat)
    ensures a < b ==> a * w + w <= b * w
  {
    if a < b {
      MulMonotone(a + 1, b, w);
      Distribute(a, 1, w);
    }
  }

  // ---------- Pieces that are not sent ----------

  /** An extraction whose filter moved the pieces and found nothing else: only the
      first piece is sent. */
  ghost function PartlyTold(l: Link, report: DriverReport, bytes: Bytes): Event
    requires GetRectVector(l.server.Input(report).copiedRegion) != []
  {
    var s := l.server;
    var input := s.Input(report);
    var rects := GetRectVector(input.copiedRegion);
    var moved := MovedAll(s.picture.frame, rects, input.copySrc);
    var pass := Pass(Normal, input.(changedRegion := {}), moved, moved);
    var c := s.Delivered(report, pass);
    Extraction(
      report, pass, c, BareReply(c, Some(Copy(c.copySrc, Patch(rects[0], bytes))), NO_SHAPE), NO_SHAPE,
      s.(keeper := AddCopy(s.keeper, s.border, report.copyRect, report.copySrc).Clear(),
         picture := s.picture.(frame := moved)))
  }

  lemma PartlyToldCanHappen(l: Link, report: DriverReport, bytes: Bytes)
    requires InStep(l) && !l.server.Covers(report) && l.server.border == l.server.work.dim.GetRect()
    requires GetRectVector(l.server.Input(report).copiedRegion) != []
    requires var e := PartlyTold(l, report, bytes);
             && IsFull(e.after.picture)
             && ShowsRect(bytes, e.m.copy.value.patch.rect, l.server.picture.pf.BytesPerPixel(), e.after.picture.frame)
    ensures CanHappen(l, PartlyTold(l, report, bytes))
    ensures var e := PartlyTold(l, report, bytes); ContainerOf(e.m).Dirty() == Pixels(e.m.copy.value.patch.rect)
  {
    hide AddCopy, ToFilter, Pixels, ShowsRect, IsRectVector, GetRectVector, MovedAll, IsFull, OnlyFirstMoves, Tells,
         ContainerOf;
    var e := PartlyTold(l, report, bytes);
    var input := l.server.Input(report);
    InputFlags(l.server, report);
    RectVectorLists(input.copiedRegion);
    FirstCorner(GetRectVector(input.copiedRegion), input.copiedRegion);
    BareReplyTells(e.c, e.m.copy, e.after.picture, NO_SHAPE);
    MovesPassFilter(input, l.server.picture.frame);
  }

  /** The filter may make the moves and find nothing. */
  lemma MovesPassFilter(c: UpdateContainer, before: Frame)
    ensures var rects := GetRectVector(c.copiedRegion);
            var moved := MovedAll(before, rects, c.copySrc);
            PassedFilter(c, c.(changedRegion := {}), rects, Done, before, moved, moved, moved) &&
            moved.Keys == before.Keys
  {
    hide MovedAll, GetRectVector;
    var rects := GetRectVector(c.copiedRegion);
    RectVectorLists(c.copiedRegion);
    NothingFound(c, rects, before);
    MovedThenPatched(before, c.(changedRegion := {}), rects, {}, before);
  }

  lemma UncoveredDisagrees(l: Link, report: DriverReport)
    requires IsUsual(l) && !l.server.Covers(report)
    ensures !ExchangeAgrees(l, report)
  {
    hide CanHappen, Next, Snapshot.Covers, Snapshot.Input, PartlyTold, ExchangeAgrees, CouldHave, IsUsual,
         GetRectVector, SourceOf, MovedAll, Pixels;
    var input, screen := l.server.Input(report), Pixels(l.server.picture.dim.GetRect());
    var rects, bpp := GetRectVector(input.copiedRegion), l.server.picture.pf.BytesPerPixel();
    var p := MovedPixel(l, report);
    var x, y := Grey(bpp, 1), Grey(bpp, 0);
    var f := OneApart(screen, SourceOf(rects, input.copySrc, screen, p), x, y);
    UsualParts(l);
    TwoGreys(bpp);
    SamePictures(l, f);
    var l' := WithPictures(l, f, f);
    GuardsSeeNoPixels(l, f, f, report);
    InputSeesNoPixels(l, f, f, report);
    MovedPixelShows(rects, input.copySrc, screen, p, x, y);
    MovedIsFull(l'.server.picture, rects, input.copySrc);
    FirstIsRect(input.copiedRegion);
    var bytes := HasBytes(l'.server.picture.(frame := MovedAll(f, rects, input.copySrc)), rects[0]);
    PartlyToldParts(l', report, bytes);
    PartlyToldCanHappen(l', report, bytes);
    PartlyToldDisagrees(l', report, bytes, p);
    OneDisagrees(l, report, f, f, PartlyTold(l', report, bytes));
  }

  /** A pixel that the moves change and the reply leaves out. */
  lemma MovedPixel(l: Link, report: DriverReport) returns (p: Point)
    requires !l.server.Covers(report)
    ensures var input, screen := l.server.Input(report), Pixels(l.server.picture.dim.GetRect());
            var rects := GetRectVector(input.copiedRegion);
            && p in screen && rects != [] && !rects[0].Contains(p) && SourceOf(rects, input.copySrc, screen, p) != p
  {
    hide GetRectVector, Snapshot.StartsOver, Snapshot.TellsPicture, Snapshot.Input, Pixels, SourceOf;
    var input, screen := l.server.Input(report), Pixels(l.server.picture.dim.GetRect());
    var rects := GetRectVector(input.copiedRegion);
    p :| p in screen && (rects == [] || !rects[0].Contains(p)) && SourceOf(rects, input.copySrc, screen, p) != p;
    NoMoves(input.copySrc, screen, p);
  }

  lemma NoMoves(src: Point, screen: Region, p: Point)
    ensures SourceOf([], src, screen, p) == p
  {
  }

  lemma UsualParts(l: Link)
    requires IsUsual(l)
    ensures l.server.picture.pf.BytesPerPixel() > 0 && l.server.border == l.server.work.dim.GetRect()
  {
  }

  lemma InputSeesNoPixels(l: Link, p: Frame, q: Frame, report: DriverReport)
    ensures WithPictures(l, p, q).server.Input(report) == l.server.Input(report)
  {
    hide ToFilter;
  }

  lemma MovedIsFull(q: Picture, rects: seq<Rect>, src: Point)
    requires IsFull(q)
    ensures IsFull(q.(frame := MovedAll(q.frame, rects, src)))
  {
    hide MovedAll, SourceOf;
    var moved := MovedAll(q.frame, rects, src);
    forall p | p in moved ensures |moved[p]| == q.pf.BytesPerPixel() {
      MovedKeys(q.frame, rects, src);
      MovedFromSource(q.frame, rects, src, p);
    }
  }

  lemma {:induction false} MovedKeys(f: Frame, rects: seq<Rect>, src: Point)
    ensures MovedAll(f, rects, src).Keys == f.Keys
  {
    if rects != [] {
      MovedKeys(f, rects[..|rects| - 1], src);
    }
  }

  lemma FirstIsRect(s: Region)
    ensures GetRectVector(s) != [] ==> !GetRectVector(s)[0].IsEmpty()
  {
    hide GetRectVector;
    RectVectorLists(s);
  }

  lemma PartlyToldParts(l: Link, report: DriverReport, bytes: Bytes)
    requires GetRectVector(l.server.Input(report).copiedRegion) != []
    ensures var e, input := PartlyTold(l, report, bytes), l.server.Input(report);
            var rects := GetRectVector(input.copiedRegion);
            && e.Extraction? && e.report == report && e.m.screen.None? && e.m.copy.Some?
            && e.m.copy.value.patch.rect == rects[0]
            && e.after.picture == l.server.picture.(frame := MovedAll(l.server.picture.frame, rects, input.copySrc))
  {
    hide GetRectVector, Snapshot.Input, MovedAll, AddCopy;
  }

  lemma PartlyToldDisagrees(l: Link, report: DriverReport, bytes: Bytes, p: Point)
    requires GetRectVector(l.server.Input(report).copiedRegion) != []
    requires InStep(l) && Agree(l) && CanHappen(l, PartlyTold(l, report, bytes))
    requires var e := PartlyTold(l, report, bytes);
             && e.Extraction? && e.m.screen.None? &&
                e.after.picture == l.server.picture.(frame := e.after.picture.frame)
             && p in l.client.frame && p in e.after.picture.frame && e.after.picture.frame[p] != l.client.frame[p]
             && p !in ContainerOf(e.m).Dirty()
    ensures !EndsAlike(Next(l, PartlyTold(l, report, bytes)))
  {
    hide Tells, Extracts, Received, Pixels, AddCopy, PartlyTold, ContainerOf, GetRectVector, IsFull;
    var e := PartlyTold(l, report, bytes);
    Transmitted(l.client, e.m, e.c, e.after.picture, e.shape);
  }

  const FORMAT32 := PixelFormat(32, 24, 255, 255, 255, 16, 8, 0, false)
  const FORMAT16 := PixelFormat(16, 16, 31, 63, 31, 11, 5, 0, false)
  const SMALL := Dimension(1, 1)

  /** What the driver says when it is asked: the properties of the display
      against those of the work buffer. */
  function HonestReport(work: Properties, display: Properties): DriverReport {
    DriverReport(Rect(0, 0, 0, 0), Point(0, 0), {}, work != display, work.dim != display.dim, Point(0, 0))
  }

  ghost function OnePixel(x: Pixel): Frame {
    map p | p in Pixels(SMALL.GetRect()) :: x
  }

  /** A client that had 32 bits per pixel is connected to a server that started
      with 16: both pictures are the client's. */
  ghost function Reconnected(x: Pixel): Link {
    var p := Picture(SMALL, FORMAT32, OnePixel(x));
    var border := SMALL.GetRect();
    Link(p, Snapshot(AddChanged(EMPTY_CONTAINER, border, Pixels(border)), border, {}, border, p,
                     Properties(SMALL, FORMAT16), Properties(SMALL, FORMAT16)))
  }

  /** The display turns back to 32 bits before the first extraction. */
  ghost function ReconnectedRun(x: Pixel, y: Pixel): seq<Event> {
    var now := Properties(SMALL, FORMAT32);
    var l := Next(Reconnected(x), DisplayChanges(now));
    [DisplayChanges(now),
     UntoldRestart(l, HonestReport(l.server.work, now), OnePixel(y), NO_SHAPE)]
  }

  /** Then the extraction starts over, the reply does not say so, and the
      pictures part, although the driver told the truth. */
  lemma ReconnectedDisagrees(x: Pixel, y: Pixel)
    requires x != y && |x| == |y| == 4
    ensures InStep(Reconnected(x)) && Agree(Reconnected(x)) && CanRun(Reconnected(x), ReconnectedRun(x, y))
    ensures !Agree(Run(Reconnected(x), ReconnectedRun(x, y)))
  {
    hide InStep, Reconnected, OnePixel, HonestReport, Agree, CanRun, Run, UntoldRestart, Snapshot.Untold, IsFull;
    var now := Properties(SMALL, FORMAT32);
    ReconnectedIsDue(x);
    OnePixelDiffers(x, y);
    UntoldRun(Reconnected(x), now, HonestReport(Reconnected(x).server.work, now), OnePixel(y), NO_SHAPE);
    OnlyAgreeIfSame(Run(Reconnected(x), ReconnectedRun(x, y)));
  }

  lemma UntoldRun(l: Link, now: Properties, report: DriverReport, frame: Frame, shape: Shape)
    requires InStep(Next(l, DisplayChanges(now))) && Next(l, DisplayChanges(now)).server.Untold(report)
    requires frame.Keys == Pixels(now.dim.GetRect()) && IsFull(Picture(now.dim, now.pf, frame))
    ensures var events := [DisplayChanges(now), UntoldRestart(Next(l, DisplayChanges(now)), report, frame, shape)];
            && CanRun(l, events)
            && Run(l, events).client == l.client && Run(l, events).server.picture == Picture(now.dim, now.pf, frame)
            && Run(l, events).server.work == now && !Run(l, events).server.keeper.screenSizeChanged
  {
    hide CanHappen, Received, InStep, Snapshot.Untold, Snapshot.Covers, Extracts, AddCopy, Pixels;
    var changed := Next(l, DisplayChanges(now));
    var e := UntoldRestart(changed, report, frame, shape);
    DisplayCanChange(l, DisplayChanges(now));
    UntoldCanHappen(changed, report, frame, shape);
    RunOfTwo(l, DisplayChanges(now), e);
    UntoldParts(changed, report, frame, shape);
  }

  const WIDE := Dimension(2, 1)

  ghost function TwoPixels(x: Pixel): Frame {
    map p | p in Pixels(WIDE.GetRect()) :: x
  }

  /** The driver is asked while the display has its old size and 32 bits; when the
      properties are applied it is wider. */
  ghost function ResizedRun(x: Pixel, y: Pixel): seq<Event> {
    var now := Properties(WIDE, FORMAT32);
    var l := Next(Reconnected(x), DisplayChanges(now));
    [DisplayChanges(now),
     UntoldRestart(l, HonestReport(l.server.work, Properties(SMALL, FORMAT32)), TwoPixels(y), NO_SHAPE)]
  }

  /** Then the client is not told of the size, although the driver told the truth
      when it was asked. */
  lemma ResizedDisagrees(x: Pixel, y: Pixel)
    requires |x| == |y| == 4
    ensures InStep(Reconnected(x)) && Agree(Reconnected(x)) && CanRun(Reconnected(x), ResizedRun(x, y))
    ensures var l := Run(Reconnected(x), ResizedRun(x, y)); l.client.dim == SMALL && l.server.picture.dim == WIDE
    ensures IsApart(Run(Reconnected(x), ResizedRun(x, y)))
  {
    hide InStep, Reconnected, TwoPixels, HonestReport, Agree, CanRun, Run, UntoldRestart, Snapshot.Untold, IsFull;
    var now := Properties(WIDE, FORMAT32);
    ReconnectedIsDue(x);
    ResizedIsDue(x);
    TwoPixelsAreFull(y);
    UntoldRun(Reconnected(x), now, HonestReport(Reconnected(x).server.work, Properties(SMALL, FORMAT32)), TwoPixels(y),
              NO_SHAPE);
  }

  lemma TwoPixelsAreFull(x: Pixel)
    requires |x| == 4
    ensures TwoPixels(x).Keys == Pixels(WIDE.GetRect()) && IsFull(Picture(WIDE, FORMAT32, TwoPixels(x)))
  {
  }

  lemma ResizedIsDue(x: Pixel)
    ensures Reconnected(x).client.dim == SMALL
    ensures var l := Next(Reconnected(x), DisplayChanges(Properties(WIDE, FORMAT32)));
            InStep(l) && l.server.UntoldSize(HonestReport(l.server.work, Properties(SMALL, FORMAT32)))
  {
    hide AddCopy, Pixels;
    assert FORMAT16.bitsPerPixel != FORMAT32.bitsPerPixel;
  }

  // ---------- After an untold size ----------

  /** The sizes differ, and nothing is left that would tell. */
  ghost predicate IsApart(l: Link) {
    && l.client.dim != l.server.picture.dim
    && l.server.work == l.server.Backup() && !l.server.keeper.screenSizeChanged
  }

  /** The driver reports no new properties, and no size is reported otherwise. */
  predicate IsQuiet(e: Event) {
    match e
    case KeeperEvent(op) => op.Merge? ==> !op.other.screenSizeChanged
    case Exclude(_) => true
    case DisplayChanges(_) => true
    case Extraction(report, _, _, _, _, _) => !report.propertiesChanged
  }

  lemma QuietStaysApart(l: Link, e: Event)
    requires IsApart(l) && CanHappen(l, e) && IsQuiet(e)
    ensures IsApart(Next(l, e)) && Next(l, e).client.dim == l.client.dim &&
            Next(l, e).server.picture.dim == l.server.picture.dim
  {
    hide AddCopy, ToFilter, Tells, PatchedAll, FrameAfterCopy;
    match e
    case KeeperEvent(op) => KeeperKeepsSize(l.server.keeper, l.server.border, op);
    case Exclude(_) =>
    case DisplayChanges(_) =>
    case Extraction(report, pass, c, m, shape, after) =>
      NoScreenNoChange(l.server, report, pass, c, after, m, shape);
  }

  lemma KeeperKeepsSize(c: UpdateContainer, border: Rect, op: Operation)
    requires !c.screenSizeChanged && (op.Merge? ==> !op.other.screenSizeChanged)
    ensures !Apply(c, border, op).screenSizeChanged
  {
  }

  /** No exchange repairs an untold size until the driver reports another change. */
  lemma {:induction false} UntoldSizeStays(l: Link, events: seq<Event>)
    requires IsApart(l) && CanRun(l, events) && forall i :: 0 <= i < |events| ==> IsQuiet(events[i])
    ensures IsApart(Run(l, events))
    ensures Run(l, events).client.dim == l.client.dim && Run(l, events).server.picture.dim == l.server.picture.dim
  {
    hide IsApart, CanHappen, IsQuiet, Next;
    if events != [] {
      var n := |events| - 1;
      assert forall i :: 0 <= i < n ==> events[..n][..i] == events[..i];
      UntoldSizeStays(l, events[..n]);
      QuietStaysApart(Run(l, events[..n]), events[n]);
    }
  }

  lemma ReconnectedIsDue(x: Pixel)
    ensures InStep(Reconnected(x)) && Agree(Reconnected(x)) && Reconnected(x).client.frame == OnePixel(x)
    ensures var now := Properties(SMALL, FORMAT32);
            var l := Next(Reconnected(x), DisplayChanges(now));
            InStep(l) && l.server.Untold(HonestReport(l.server.work, now))
  {
    hide AddCopy, Pixels;
    assert FORMAT16.bitsPerPixel != FORMAT32.bitsPerPixel;
  }

  lemma OnlyAgreeIfSame(l: Link)
    requires l.client.frame != l.server.picture.frame
    ensures !Agree(l)
  {
  }

  lemma OnePixelDiffers(x: Pixel, y: Pixel)
    requires x != y && |y| == 4
    ensures IsFull(Picture(SMALL, FORMAT32, OnePixel(y)))
    ensures OnePixel(x) != OnePixel(y) && OnePixel(x).Keys == OnePixel(y).Keys == Pixels(SMALL.GetRect())
  {
    assert Point(0, 0) in Pixels(SMALL.GetRect());
    assert OnePixel(x)[Point(0, 0)] != OnePixel(y)[Point(0, 0)];
  }

  lemma DisplayCanChange(l: Link, e: Event)
    requires e.DisplayChanges?
    ensures CanHappen(l, e)
  {
  }

  lemma RunOfTwo(l: Link, e1: Event, e2: Event)
    requires CanHappen(Next(l, e1), e2) && CanHappen(l, e1)
    ensures CanRun(l, [e1, e2]) && Run(l, [e1, e2]) == Next(Next(l, e1), e2)
  {
    hide CanHappen, Next;
    var events := [e1, e2];
    assert events[..0] == [] && events[..1] == [e1] && [e1][..0] == [];
    assert Run(l, events[..0]) == l && Run(l, events[..1]) == Next(l, e1);
  }

  // ---------- A copy that the excluded region splits ----------

  // The input: in a row of six pixels the first half is copied over the second,
  // while the pixel in the middle of the second half is excluded.

  const ROW := Rect(0, 0, 6, 1)
  const HALF_COPIED := DriverReport(Rect(3, 0, 6, 1), Point(0, 0), {}, false, false, Point(0, 0))
  const LEFT := Point(3, 0)
  const MIDDLE := Point(4, 0)
  const RIGHT := Point(5, 0)
  const PIECES := [Unit(LEFT), Unit(RIGHT)]

  /** Onto a clean keeper a copy that lands whole is all there is to filter. */
  lemma FreshCopyInput(s: Snapshot, report: DriverReport)
    requires s.keeper.Dirty() == {} && report.video == {}
    requires !report.copyRect.IsEmpty() && LandingRect(s.border, report.copyRect, report.copySrc) == report.copyRect
    ensures s.Input(report) == s.keeper.(copiedRegion := Pixels(report.copyRect) - s.excluded, changedRegion := {},
                                         videoRegion := {}, copySrc := report.copySrc)
  {
    var dst, d := report.copyRect, CopyShift(report.copyRect, report.copySrc);
    var c := AddCopy(s.keeper, s.border, report.copyRect, report.copySrc);
    assert Minus(dst.TopLeft(), d) == report.copySrc;
    assert c == s.keeper.(copySrc := report.copySrc, copiedRegion := Pixels(dst), changedRegion := {});
    LandingIsRect(s.border, report.copyRect, report.copySrc);
    assert Crop(Pixels(dst), s.border) == Pixels(dst);
  }

  lemma HalfLands(border: Rect, rect: Rect, src: Point)
    requires border == ROW && rect == HALF_COPIED.copyRect && src == HALF_COPIED.copySrc
    ensures LandingRect(border, rect, src) == rect
  {
    var d := CopyShift(rect, src);
    assert rect.Intersection(border) == rect && border.Move(d.x, d.y) == Rect(3, 0, 9, 1);
  }

  lemma PiecesAreListed()
    ensures GetRectVector({LEFT, RIGHT}) == PIECES && !IsRect({LEFT, RIGHT})
  {
    hide GetRectVector;
    TwoSpans(LEFT, RIGHT);
    RectVectorLists({LEFT, RIGHT});
  }

  /** The excluded pixel cuts the copied rectangle in two. */
  lemma ExcludedSplitsCopy(s: Snapshot, report: DriverReport)
    requires s.keeper.Dirty() == {} && s.border == ROW && s.excluded == {MIDDLE} && report == HALF_COPIED
    ensures s.Input(report) ==
            s.keeper.(copiedRegion := {LEFT, RIGHT}, changedRegion := {}, videoRegion := {}, copySrc := report.copySrc)
    ensures !OneCopied(s.Input(report)) && GetRectVector(s.Input(report).copiedRegion) == PIECES
  {
    hide Snapshot.Input, GetRectVector, IsRect, Pixels, LandingRect, UpdateContainer.Dirty;
    HalfLands(s.border, report.copyRect, report.copySrc);
    FreshCopyInput(s, report);
    HalfLessMiddle(report.copyRect);
    PiecesAreListed();
  }

  lemma HalfLessMiddle(r: Rect)
    requires r == HALF_COPIED.copyRect
    ensures Pixels(r) - {MIDDLE} == {LEFT, RIGHT}
  {
    forall p ensures p in Pixels(r) <==> p in {LEFT, MIDDLE, RIGHT} {
      assert r.Contains(p) <==> p == LEFT || p == MIDDLE || p == RIGHT;
    }
  }

  lemma PixelCopied(f: Frame, q: Point, src: Point)
    requires q in f && src in f
    ensures Copied(f, Unit(q), f, src) == f[q := f[src]]
  {
    forall p | p in f ensures Copied(f, Unit(q), f, src)[p] == f[q := f[src]][p] {
      assert Unit(q).Contains(p) <==> p == q;
      assert Plus(Minus(q, Unit(q).TopLeft()), src) == src;
    }
  }

  lemma TwoPixelsMoved(f: Frame, q: Point, q': Point, src: Point)
    requires q in f && q' in f && src in f && src != q
    ensures MovedAll(f, [Unit(q), Unit(q')], src) == f[q := f[src]][q' := f[src]]
  {
    var rects := [Unit(q), Unit(q')];
    assert rects[..1] == [Unit(q)] && rects[..1][..0] == [];
    assert MovedAll(f, [], src) == f;
    PixelCopied(f, q, src);
    assert MovedAll(f, rects[..1], src) == f[q := f[src]];
    PixelCopied(f[q := f[src]], q', src);
  }

  lemma PixelShown(x: Pixel, q: Point, bpp: nat, f: Frame)
    requires q in f && f[q] == x && |x| == bpp > 0
    ensures ShowsRect(x, Unit(q), bpp, f)
  {
    var dim := DimensionOf(Unit(q));
    assert dim.width == 1 && dim.height == 1 && dim.Area() == 1 && Fits(x, dim, bpp);
    assert dim.GetRect().Contains(Point(0, 0));
    forall p | p in f && Unit(q).Contains(p)
      ensures Minus(p, q) in ContentOf(x, dim, bpp) && ContentOf(x, dim, bpp)[Minus(p, q)] == f[p]
    {
      assert p == q && Minus(p, q) == Point(0, 0);
    }
  }

  /** Nothing is pending, and the colour in the corner is not the one at the right. */
  ghost predicate SplitStarts(l: Link, x: Pixel) {
    && InStep(l) && Agree(l) && l.client.frame.Keys == Pixels(ROW)
    && l.server.keeper == EMPTY_CONTAINER && l.server.border == ROW && l.server.excluded == {MIDDLE}
    && l.server.absolute.IsEmpty() && l.server.work == l.server.Backup()
    && IsFull(l.server.picture) && |x| == l.server.picture.pf.BytesPerPixel()
    && Point(0, 0) in l.client.frame && LEFT in l.client.frame && RIGHT in l.client.frame
    && l.client.frame[Point(0, 0)] == x && l.client.frame[RIGHT] != x
  }

  ghost function SplitEvent(s: Snapshot, report: DriverReport, x: Pixel, screen: Frame, shape: Shape): Event
    requires LEFT in s.picture.frame && RIGHT in s.picture.frame
  {
    var pass := Pass(Normal, s.Input(report), screen, screen);
    var c := s.Delivered(report, pass);
    Extraction(
      report, pass, c, BareReply(c, Some(Copy(report.copySrc, Patch(Unit(LEFT), x))), shape), shape,
      s.(keeper := AddCopy(s.keeper, s.border, report.copyRect, report.copySrc).Clear(),
         picture := s.picture.(frame := s.picture.frame[LEFT := x][RIGHT := x])))
  }

  /** Both pieces are moved from the corner, whose colour the display shows at
      their places, so the filter has nothing to repair. */
  lemma SplitIsSynchronized(c: UpdateContainer, f: Frame, x: Pixel, screen: Frame)
    requires c.copiedRegion == {LEFT, RIGHT} && c.changedRegion == c.videoRegion == {} && c.copySrc == Point(0, 0)
    requires Point(0, 0) in f && LEFT in f && RIGHT in f && f[Point(0, 0)] == x
    requires LEFT in screen && RIGHT in screen && screen[LEFT] == screen[RIGHT] == x
    ensures Synchronized(c, c, PIECES, f, screen, f[LEFT := x][RIGHT := x])
  {
    hide MovedAll, Finds;
    TwoPixelsMoved(f, LEFT, RIGHT, c.copySrc);
    PatchedNothing(f[LEFT := x][RIGHT := x], screen);
    FindsNothing(f[LEFT := x][RIGHT := x], screen, Checked(c));
  }

  lemma SplitCanHappen(l: Link, report: DriverReport, x: Pixel, screen: Frame, shape: Shape)
    requires SplitStarts(l, x) && report == HALF_COPIED
    requires screen.Keys == l.client.frame.Keys && screen[LEFT] == screen[RIGHT] == x
    ensures CanHappen(l, SplitEvent(l.server, report, x, screen, shape))
    ensures ContainerOf(SplitEvent(l.server, report, x, screen, shape).m).Dirty() == Pixels(Unit(LEFT))
  {
    hide Snapshot.Input, IsRectVector, IsRect, Pixels, ShowsRect, AddCopy, GetRectVector, MovedAll, Synchronized,
         Tells, ContainerOf;
    var e := SplitEvent(l.server, report, x, screen, shape);
    ExcludedSplitsCopy(l.server, report);
    PiecesAreListed();
    PixelShown(x, LEFT, l.server.picture.pf.BytesPerPixel(), e.after.picture.frame);
    BareReplyTells(e.c, e.m.copy, e.after.picture, shape);
    SplitIsSynchronized(e.pass.filtered, l.server.picture.frame, x, screen);
  }

  /** Then an extraction whose filter finds nothing more leaves the client without
      a copied pixel. */
  lemma SplitCopyDisagrees(l: Link, report: DriverReport, x: Pixel, screen: Frame, shape: Shape) returns (e: Event)
    requires SplitStarts(l, x) && report == HALF_COPIED
    requires screen.Keys == l.client.frame.Keys && screen[LEFT] == screen[RIGHT] == x
    ensures e.Extraction? && e.report == report && CanHappen(l, e) && e.pass.shown == screen
    ensures !Agree(Next(l, e))
  {
    hide Snapshot.Input, Tells, Received, AddCopy, Pixels, GetRectVector, ContainerOf, Extracts, IsFull;
    e := SplitEvent(l.server, report, x, screen, shape);
    SplitCanHappen(l, report, x, screen, shape);
    Transmitted(l.client, e.m, e.c, e.after.picture, e.shape);
    assert RIGHT !in Pixels(Unit(LEFT));
    assert e.after.picture.frame[RIGHT] != l.client.frame[RIGHT];
  }

  ghost function RowPicture(x: Pixel, y: Pixel): Picture {
    Picture(Dimension(6, 1), FORMAT32, map p | p in Pixels(ROW) :: if p.x < 3 then x else y)
  }

  /** Such a row can be had in any two colours. */
  lemma SplitCanStart(x: Pixel, y: Pixel) returns (l: Link)
    requires |x| == |y| == 4 && x != y
    ensures SplitStarts(l, x)
  {
    var p := RowPicture(x, y);
    var own := Properties(p.dim, p.pf);
    l := Link(p, Snapshot(EMPTY_CONTAINER, ROW, {MIDDLE}, Rect(0, 0, 0, 0), p, own, own));
    assert ROW.Contains(Point(0, 0)) && ROW.Contains(LEFT) && ROW.Contains(RIGHT);
  }

  // ---------- The objects get there ----------

  /** A server process starts: work buffer and backup are as the display. */
  method StartServer(dim: Dimension, pf: PixelFormat) returns (server: UpdateHandlerServer)
    requires pf.IsValid()
    ensures fresh(server) && fresh(server.handler) && fresh(server.handler.backup) &&
            fresh(server.handler.driver.desktop)
    ensures fresh(server.handler.driver.screen) && fresh(server.handler.backup.buffer) &&
            fresh(server.handler.driver.screen.buffer)
    ensures fresh(server.handler.driver.desktop.buffer) && server.handler.Valid()
    ensures PropertiesOf(server.handler.driver.screen) == PropertiesOf(server.handler.driver.desktop) ==
            Properties(dim, pf)
    ensures !server.handler.keeper.container.screenSizeChanged && !server.oldPf.bigEndian
  {
    hide FrameBuffer.Content, Dimension.Area, Pixels, GrabOptimizator.Valid;
    var screen := new FrameBuffer(dim, pf);
    var desktop := new FrameBuffer(dim, pf);
    var driver := new ScreenDriver(screen, desktop);
    var handler := new UpdateHandler(driver);
    server := new UpdateHandlerServer(handler);
  }

  lemma DisplayKeepsAgreement(l: Link, display: Properties)
    requires InStep(l) && Agree(l)
    ensures var l' := Next(l, DisplayChanges(display)); InStep(l') && Agree(l')
  {
  }

  /** The driver reports truly, the work buffer is not what the display is, and
      the backup is already. */
  lemma HonestAndUntold(s: Snapshot, report: DriverReport)
    requires report == HonestReport(s.work, s.display) && !s.keeper.screenSizeChanged
    ensures s.Untold(report) <==> s.work != s.display == s.Backup() && s.work.dim == s.display.dim
  {
  }

  /** A driver that tells of the size truly, and of the display as it is when it
      is applied, leaves no size untold. */
  lemma HonestSizeIsTold(s: Snapshot, report: DriverReport)
    requires report.sizeChanged <==> s.work.dim != s.display.dim
    ensures !s.UntoldSize(report)
  {
  }

  /** If the display is resized after the driver was asked, the size is not told. */
  lemma ResizedIsUntold(s: Snapshot, report: DriverReport, dim: Dimension)
    requires s.Untold(report) && dim != s.picture.dim
    ensures s.(display := Properties(dim, s.display.pf)).UntoldSize(report)
  {
  }

  /** A new server takes over the client's picture; its work buffer keeps the
      format that the display had. */
  method ConnectToNewServer(client: UpdateHandlerClient, pf: PixelFormat)
    returns (server: UpdateHandlerServer, gate: Gate)
    requires client.backup.Valid() && pf.IsValid()
    requires PixelFormatFits(client.backup.pf) && PixelFormatAccepted(client.backup.pf) &&
             DimensionAccepted(client.backup.dim)
    ensures fresh(server.handler.driver.desktop) && gate.data == []
    ensures client.backup.Valid() && server.Valid() && Apart(client, server)
    ensures InStep(LinkOf(client, server)) && Agree(LinkOf(client, server))
    ensures SnapshotOf(server.handler).work == SnapshotOf(server.handler).display == Properties(client.backup.dim, pf)
    ensures SnapshotOf(server.handler).Backup() == Properties(client.backup.dim, client.backup.pf.(bigEndian := false))
    ensures !SnapshotOf(server.handler).keeper.screenSizeChanged
  {
    hide FrameBuffer.Content, Dimension.Area, Pixels, GrabOptimizator.Valid, Agree, InStep;
    server := StartServer(client.backup.dim, pf);
    gate := new Gate();
    var init := Connect(client, server, gate);
  }

  /** Then the display turns to the client's format before the first extraction:
      for an honest driver an untold restart is due. */
  method Reconnect(client: UpdateHandlerClient, pf: PixelFormat)
    returns (server: UpdateHandlerServer, gate: Gate, report: DriverReport)
    requires client.backup.Valid() && pf.IsValid() && pf != client.backup.pf.(bigEndian := false)
    requires PixelFormatFits(client.backup.pf) && PixelFormatAccepted(client.backup.pf) &&
             DimensionAccepted(client.backup.dim)
    ensures client.backup.Valid() && server.Valid() && gate.data == []
    ensures InStep(LinkOf(client, server)) && Agree(LinkOf(client, server))
    ensures Apart(client, server) && fresh(server.handler.driver.desktop)
    ensures SnapshotOf(server.handler).picture.dim == client.backup.dim &&
            SnapshotOf(server.handler).display.pf.IsValid()
    ensures report == HonestReport(SnapshotOf(server.handler).work, SnapshotOf(server.handler).display)
    ensures SnapshotOf(server.handler).Untold(report)
  {
    hide FrameBuffer.Content, Dimension.Area, Pixels, GrabOptimizator.Valid, Agree, InStep, Snapshot.Untold,
         ScreenDriver.Valid, FrameBuffer.Valid, UpdateFilter.Valid, SnapshotOf, HonestReport;
    server, gate := ConnectToNewServer(client, pf);
    var now := Properties(client.backup.dim, client.backup.pf.(bigEndian := false));
    DisplayKeepsAgreement(LinkOf(client, server), now);
    ChangeDisplay(client, server, now);
    report := HonestReport(Properties(client.backup.dim, pf), now);
    HonestAndUntold(SnapshotOf(server.handler), report);
  }

  /** And if the display is resized before the properties are applied, not even
      the size is told. */
  method ReconnectAndResize(client: UpdateHandlerClient, pf: PixelFormat, dim: Dimension)
    returns (server: UpdateHandlerServer, gate: Gate, report: DriverReport)
    requires client.backup.Valid() && pf.IsValid() && pf != client.backup.pf.(bigEndian := false) &&
             dim != client.backup.dim
    requires PixelFormatFits(client.backup.pf) && PixelFormatAccepted(client.backup.pf) &&
             DimensionAccepted(client.backup.dim)
    ensures client.backup.Valid() && server.Valid() && gate.data == []
    ensures InStep(LinkOf(client, server)) && Agree(LinkOf(client, server))
    ensures SnapshotOf(server.handler).UntoldSize(report)
  {
    hide FrameBuffer.Content, Dimension.Area, Pixels, GrabOptimizator.Valid, Agree, InStep, Snapshot.Untold,
         Snapshot.UntoldSize, ScreenDriver.Valid, FrameBuffer.Valid, UpdateFilter.Valid, HonestReport;
    server, gate, report := Reconnect(client, pf);
    ghost var s := SnapshotOf(server.handler);
    var now := Properties(dim, server.handler.driver.desktop.pf);
    DisplayKeepsAgreement(LinkOf(client, server), now);
    ResizedIsUntold(s, report, dim);
    ChangeDisplay(client, server, now);
  }
}
