/** The two desktop processes together (desktop-ipc/UpdateHandlerServer.cpp,
    desktop-ipc/UpdateHandlerClient.cpp): what the client's buffer has to do with
    the server's backup after one EXTRACT exchange, and over whole sessions. */
module ReplicaSessions {
  import opened Geometry
  import opened Regions
  import opened Frames
  import opened FrameBuffers
  import opened Codec
  import opened Gates
  import opened ExtractReplies
  import opened GrabOptimizators
  import opened ScreenDrivers
  import opened UpdateKeepers
  import opened UpdateFilters
  import opened UpdateHandlers
  import opened KeeperMeaning
  import opened FilterMeaning
  import opened Options
  import opened Replica

  /** The dimension and the eight transmitted fields of the pixel format. */
  predicate SameShape(p: Picture, q: Picture) {
    p.dim == q.dim && SameFormat(p, q)
  }

  predicate SameFormat(p: Picture, q: Picture) {
    p.pf == q.pf.(bigEndian := p.pf.bigEndian)
  }

  predicate InRange(m: Reply, bpp: nat) {
    && (m.screen.Some? ==> PixelFormatFits(m.screen.value.pf) && PixelFormatAccepted(m.screen.value.pf) &&
                           DimensionAccepted(m.screen.value.dim))
    && RectsAccepted(m.video) && RectsAccepted(RectsOf(m.changed))
    && (m.copy.Some? ==> PointFits(m.copy.value.src) && RectAccepted(m.copy.value.patch.rect))
    && PointFits(m.cursorPos)
    && (m.shape.Some? ==> ShapeFits(bpp, m.shape.value))
  }

  /** What tells a picture has the announced sizes, so it can be decoded. */
  lemma TellingFits(p: Picture, m: Reply, c: UpdateContainer, q: Picture, shape: Shape)
    requires Tells(m, c, q, shape) && InRange(m, q.pf.BytesPerPixel())
    requires m.screen.None? ==> SameFormat(p, q)
    ensures ReplyFits(p.pf, m) && AsRead(m) == m
  {
    hide ContentOf, Dimension.Area;
    var bpp := q.pf.BytesPerPixel();
    assert FormatAfter(p.pf, m.screen).BytesPerPixel() == bpp;
    forall i | 0 <= i < |m.changed| ensures PatchFits(bpp, m.changed[i]) {
      assert RectAccepted(RectsOf(m.changed)[i]);
    }
  }

  lemma PatchedIsWhole(f: Frame, region: Region, g: Frame)
    requires f.Keys == g.Keys
    ensures Patched(f, region, g) == g <==> ChangedOnlyIn(f, g, region)
  {
    if ChangedOnlyIn(f, g, region) {
      assert forall p :: p in f ==> Patched(f, region, g)[p] == g[p];
    }
    if Patched(f, region, g) == g {
      assert forall p :: p in f && p !in region ==> Patched(f, region, g)[p] == f[p];
    }
  }

  lemma PatchedByItself(g: Frame, region: Region)
    ensures Patched(g, region, g) == g
  {
  }

  lemma CopyTakesOver(f: Frame, bpp: nat, copy: Option<Copy>, c: UpdateContainer, g: Frame)
    requires f.Keys == g.Keys && CopyTells(copy, c, bpp, g)
    ensures FrameAfterCopy(f, bpp, copy) == Patched(f, if copy.Some? then Pixels(copy.value.patch.rect) else {}, g)
  {
    hide ShowsRect, Patched1, IsRectVector, Patched;
    match copy
    case None => PatchedNothing(f, g);
    case Some(cp) => PatchTakesOver(f, bpp, cp.patch, g);
  }

  /** The rectangles of a message paint the sender's picture over the
      receiver's, and nothing else. */
  lemma PatchesAndCopyTakeOver(f: Frame, bpp: nat, m: Reply, c: UpdateContainer, g: Frame)
    requires f.Keys == g.Keys && ChangedTells(m.changed, c.changedRegion, bpp, g) && CopyTells(m.copy, c, bpp, g)
    ensures FrameAfterCopy(PatchedAll(f, bpp, m.changed), bpp, m.copy) == Patched(f, ContainerOf(m).Dirty(), g)
  {
    hide CopyTells, FrameAfterCopy, PatchedAll, AllShow, IsRectVector, UnionOf, Pixels, Patched, RectsOf;
    var changed := UnionOf(RectsOf(m.changed));
    var copied := if m.copy.Some? then Pixels(m.copy.value.patch.rect) else {};
    PatchesTakeOver(f, bpp, m.changed, g);
    CopyTakesOver(Patched(f, changed, g), bpp, m.copy, c, g);
    PatchedTwice(f, changed, copied, g);
  }

  /** A message that tells no pixels leaves the receiver's picture as it is. */
  lemma NothingReceived(p: Picture, m: Reply, c: UpdateContainer, q: Picture, shape: Shape)
    requires Tells(m, c, q, shape) && m.screen.None? && c.Dirty() == {}
    ensures Received(p, m) == p
  {
    hide AllShow, ShowsRect;
    assert c.changedRegion <= c.Dirty() && c.copiedRegion <= c.Dirty();
    FirstCorner(RectsOf(m.changed), c.changedRegion);
    assert m.changed == [];
  }

  /** The receiver ends with the sender's picture exactly when the message holds
      the whole picture or its rectangles cover every pixel that differs. */
  lemma Transmitted(p: Picture, m: Reply, c: UpdateContainer, q: Picture, shape: Shape)
    requires Tells(m, c, q, shape) && (m.screen.None? ==> SameShape(p, q))
    requires p.frame.Keys == Pixels(p.dim.GetRect()) && q.frame.Keys == Pixels(q.dim.GetRect())
    ensures SameShape(Received(p, m), q)
    ensures Received(p, m).frame == q.frame <==>
            m.screen.Some? || ChangedOnlyIn(p.frame, q.frame, ContainerOf(m).Dirty())
  {
    hide ChangedTells, CopyTells, FrameAfterCopy, PatchedAll, IsRectVector, UnionOf, Pixels, Patched, ContentOf,
         ChangedOnlyIn;
    var f := PictureAfterScreen(p, m.screen).frame;
    assert PictureAfterScreen(p, m.screen).pf.BytesPerPixel() == q.pf.BytesPerPixel();
    PatchesAndCopyTakeOver(f, q.pf.BytesPerPixel(), m, c, q.frame);
    if m.screen.Some? {
      PatchedByItself(q.frame, ContainerOf(m).Dirty());
    } else {
      PatchedIsWhole(f, ContainerOf(m).Dirty(), q.frame);
    }
  }

  lemma CopyIsWhole(copy: Option<Copy>, c: UpdateContainer, bpp: nat, f: Frame)
    requires CopyTells(copy, c, bpp, f) && (c.copiedRegion == {} || IsRect(c.copiedRegion))
    ensures (if copy.Some? then Pixels(copy.value.patch.rect) else {}) == c.copiedRegion
    ensures copy.Some? ==> c.copiedRegion != {}
  {
    hide ShowsRect, GetRectVector;
    RectVectorLists(c.copiedRegion);
  }

  /** With at most one copied rectangle the client hears of the same update. */
  lemma SameUpdateTold(m: Reply, c: UpdateContainer, q: Picture, shape: Shape)
    requires Tells(m, c, q, shape) && (c.copiedRegion == {} || IsRect(c.copiedRegion))
    ensures ContainerOf(m) ==
            c.(copySrc := if c.copiedRegion == {} then Point(0, 0) else c.copySrc)
  {
    hide AllShow, ShowsRect, ContentOf, IsRectVector, UnionOf, Pixels, IsRect, RectsOf;
    UnionOfRectVector(m.video, c.videoRegion);
    UnionOfRectVector(RectsOf(m.changed), c.changedRegion);
    CopyIsWhole(m.copy, c, q.pf.BytesPerPixel(), q.frame);
  }

  // ---------- The two processes ----------

  /** The client's buffer is none of the server's. */
  ghost predicate Apart(client: UpdateHandlerClient, server: UpdateHandlerServer)
    reads client, server, server.handler, server.handler.driver, server.handler.driver.screen,
          server.handler.driver.desktop, server.handler.backup, client.backup
  {
    ApartFrom(client.backup, server.handler.backup) && ApartFrom(client.backup, server.handler.driver.screen) &&
    ApartFrom(client.backup, server.handler.driver.desktop)
  }

  ghost predicate ApartFrom(fb: FrameBuffer, other: FrameBuffer)
    reads fb, other
  {
    fb != other && fb.buffer != other.buffer
  }

  /** The client takes a reply in. */
  method Deliver(client: UpdateHandlerClient, gate: Gate, ghost m: Reply, ghost c: UpdateContainer, ghost q: Picture,
                 ghost shape: Shape)
    returns (r: Result<UpdateContainer>)
    requires client.backup.Valid() && gate.data == EncReply(m)
    requires Tells(m, c, q, shape) && q.frame.Keys == Pixels(q.dim.GetRect())
    requires m.screen.None? ==> SameFormat(PictureOf(client.backup), q)
    modifies client`cursorShape, client.backup, client.backup.buffer, gate
    ensures InRange(m, q.pf.BytesPerPixel()) ==>
              && r == Ok(ContainerOf(m)) && gate.data == []
              && client.backup.Valid() && (client.backup.buffer == old(client.backup.buffer) ||
                                           fresh(client.backup.buffer))
              && PictureOf(client.backup) == Received(old(PictureOf(client.backup)), m)
  {
    hide EncReply, DecReply, Tells, InRange, FrameBuffer.Content, Dimension.Area, ChangedOnlyIn, Pixels, Received,
         ReplyFits, ContainerOf;
    ghost var p := PictureOf(client.backup);
    ghost var m';
    var got, c';
    got, c', m' := client.Receive(gate);
    r := if got.Ok? then Ok(c') else Err(got.error);
    if InRange(m, q.pf.BytesPerPixel()) {
      TellingFits(p, m, c, q, shape);
      ReplyRoundTrip(p.pf, m, []);
      assert EncReply(m) + [] == EncReply(m);
    }
  }

  /** The client takes the server's reply in, and the server stays as it is. */
  method DeliverBeside(client: UpdateHandlerClient, server: UpdateHandlerServer, gate: Gate, ghost m: Reply,
                       ghost c: UpdateContainer, ghost shape: Shape)
    returns (r: Result<UpdateContainer>)
    requires client.backup.Valid() && server.Valid() && Apart(client, server) && gate.data == EncReply(m)
    requires Tells(m, c, PictureOf(server.handler.backup), shape)
    requires m.screen.None? ==> SameFormat(PictureOf(client.backup), PictureOf(server.handler.backup))
    modifies client`cursorShape, client.backup, client.backup.buffer, gate
    ensures server.Valid() && SnapshotOf(server.handler) == old(SnapshotOf(server.handler))
    ensures server.handler.driver.desktop.Content() == old(server.handler.driver.desktop.Content())
    ensures InRange(m, server.handler.backup.pf.BytesPerPixel()) ==>
              && r == Ok(ContainerOf(m)) && gate.data == []
              && client.backup.Valid() && Apart(client, server)
              && PictureOf(client.backup) == Received(old(PictureOf(client.backup)), m)
  {
    hide EncReply, Tells, InRange, FrameBuffer.Content, Dimension.Area, Pixels, GrabOptimizator.Valid, ContainerOf,
         Received;
    r := Deliver(client, gate, m, c, PictureOf(server.handler.backup), shape);
  }

  /** Without the whole picture in the message its properties are the old ones,
      but for an untold size. */
  lemma NoScreenNoChange(s: Snapshot, report: DriverReport, pass: Pass, c: UpdateContainer, s': Snapshot, m: Reply,
                         shape: Shape)
    requires Extracts(s, report, pass, c, s') && Tells(m, c, s'.picture, shape)
    ensures m.screen.Some? <==> s.TellsPicture(report)
    ensures m.screen.None? ==> s'.picture.pf == s.picture.pf
    ensures m.screen.None? ==> (s'.picture.dim != s.picture.dim <==> s.UntoldSize(report))
  {
    hide AddCopy, ToFilter, ContentOf, ChangedTells, CopyTells, IsRectVector, Extracts;
    PropertiesTold(s, report, pass, c, s');
  }

  /** What a reply does to two pictures of one shape.  After an untold size the
      client's picture is what it was, and has the wrong size.  Otherwise they
      have one shape again, and are the same exactly when the reply held the whole
      picture, or its rectangles covered every pixel where they were not. */
  ghost predicate Exchanged(s: Snapshot, report: DriverReport, p: Picture, m: Reply, p': Picture, q: Picture) {
    if s.UntoldSize(report) then p' == p && p.dim != q.dim
    else
      && SameShape(p', q)
      && (p'.frame == q.frame <==> m.screen.Some? || ChangedOnlyIn(p.frame, q.frame, ContainerOf(m).Dirty()))
  }

  lemma ExchangedPictures(s: Snapshot, report: DriverReport, pass: Pass, c: UpdateContainer, s': Snapshot,
                          p: Picture, m: Reply, shape: Shape)
    requires Extracts(s, report, pass, c, s') && Tells(m, c, s'.picture, shape) && SameShape(p, s.picture)
    requires p.frame.Keys == Pixels(p.dim.GetRect()) && s'.picture.frame.Keys == Pixels(s'.picture.dim.GetRect())
    ensures Exchanged(s, report, p, m, Received(p, m), s'.picture)
  {
    hide Extracts, Tells, Received, Pixels, ChangedOnlyIn, ContainerOf, Snapshot.TellsPicture, Snapshot.StartsOver;
    NoScreenNoChange(s, report, pass, c, s', m, shape);
    PropertiesTold(s, report, pass, c, s');
    if s.UntoldSize(report) {
      NothingReceived(p, m, c, s'.picture, shape);
    } else {
      Transmitted(p, m, c, s'.picture, shape);
    }
  }

  /** The server answers a request, and the client stays as it is. */
  method Answer(client: UpdateHandlerClient, server: UpdateHandlerServer, report: DriverReport, shape: Shape,
                gate: Gate)
    returns (ending: Ending, ghost pass: Pass, ghost m: Reply, ghost c: UpdateContainer)
    requires client.backup.Valid() && server.Valid() && Apart(client, server) && gate.data == []
    requires SameShape(PictureOf(client.backup), PictureOf(server.handler.backup))
    modifies gate, server`oldPf, server.handler.keeper`container, server.handler.keeper`borderRect,
             server.handler`absoluteRect, server.handler`fullUpdateRequested, server.handler.backup,
             server.handler.backup.buffer, server.handler.driver`screen, server.handler.driver.screen.buffer,
             server.handler.filter.grabOptimizator
    ensures client.backup.Valid() && PictureOf(client.backup) == old(PictureOf(client.backup))
    ensures ending != Thrown ==>
              && server.Valid() && Apart(client, server) && server.handler.backup == old(server.handler.backup)
              && gate.data == EncReply(m) && Tells(m, c, PictureOf(server.handler.backup), shape)
              && (m.screen.None? ==> SameFormat(PictureOf(client.backup), PictureOf(server.handler.backup)))
              && pass.ending == ending && pass.shown == old(server.handler.driver.desktop.Content())
              && pass.shown == server.handler.driver.desktop.Content()
              && Extracts(old(SnapshotOf(server.handler)), report, pass, c, SnapshotOf(server.handler))
  {
    hide EncReply, Tells, FrameBuffer.Content, Dimension.Area, Pixels, GrabOptimizator.Valid, ScreenDriver.Valid,
         FrameBuffer.Valid, Extracts, Snapshot.TellsPicture, Snapshot.UntoldSize;
    ghost var s := SnapshotOf(server.handler);
    ending, pass, m, c := server.ExtractReply(report, shape, gate);
    if ending != Thrown {
      NoScreenNoChange(s, report, pass, c, SnapshotOf(server.handler), m, shape);
      assert gate.data == EncReply(m);
    }
  }

  /** One EXTRACT_REQ and its reply. */
  method Exchange(client: UpdateHandlerClient, server: UpdateHandlerServer, report: DriverReport, shape: Shape,
                  gate: Gate)
    returns (r: Result<UpdateContainer>, ending: Ending, ghost pass: Pass, ghost m: Reply, ghost c: UpdateContainer)
    requires client.backup.Valid() && server.Valid() && Apart(client, server) && gate.data == []
    requires SameShape(PictureOf(client.backup), PictureOf(server.handler.backup))
    modifies client`cursorShape, client.backup, client.backup.buffer, gate,
             server`oldPf, server.handler.keeper`container, server.handler.keeper`borderRect,
             server.handler`absoluteRect, server.handler`fullUpdateRequested, server.handler.backup,
             server.handler.backup.buffer, server.handler.driver`screen, server.handler.driver.screen.buffer,
             server.handler.filter.grabOptimizator
    ensures ending != Thrown && InRange(m, server.handler.backup.pf.BytesPerPixel()) ==>
              && r == Ok(ContainerOf(m)) && gate.data == []
              && client.backup.Valid() && server.Valid() && Apart(client, server)
              && server.handler.backup == old(server.handler.backup)
              && Tells(m, c, PictureOf(server.handler.backup), shape)
              && PictureOf(client.backup) == Received(old(PictureOf(client.backup)), m)
              && Exchanged(old(SnapshotOf(server.handler)), report, old(PictureOf(client.backup)), m,
                           PictureOf(client.backup), PictureOf(server.handler.backup))
    ensures ending != Thrown ==>
              && server.Valid() && pass.ending == ending && pass.shown == old(server.handler.driver.desktop.Content())
              && pass.shown == server.handler.driver.desktop.Content()
              && Extracts(old(SnapshotOf(server.handler)), report, pass, c, SnapshotOf(server.handler))
  {
    hide EncReply, Tells, InRange, FrameBuffer.Content, Dimension.Area, Pixels, GrabOptimizator.Valid,
         ScreenDriver.Valid, FrameBuffer.Valid, Extracts, ContainerOf, Received, Exchanged, Snapshot.TellsPicture,
         Snapshot.UntoldSize;
    ghost var s, p := SnapshotOf(server.handler), PictureOf(client.backup);
    ending, pass, m, c := Answer(client, server, report, shape, gate);
    r := Err(Blocked);
    if ending == Thrown {
      return;
    }
    ExchangedPictures(s, report, pass, c, SnapshotOf(server.handler), p, m, shape);
    r := DeliverBeside(client, server, gate, m, c, shape);
  }

  // ---------- Sessions ----------

  lemma CroppedRect(s: Region, r: Rect)
    requires IsRect(s)
    ensures Crop(s, r) == {} || IsRect(Crop(s, r))
  {
    var i := TheRect(s).Intersection(r);
    forall p: Point ensures p in Crop(s, r) <==> p in Pixels(i) {
      IntersectionContains(TheRect(s), r, p);
    }
    assert Crop(s, r) == Pixels(i);
  }

  /** With nothing excluded an extraction has at most one copied rectangle. */
  lemma OneRectExtracted(s: Snapshot, report: DriverReport)
    requires WellFormed(s.keeper) && s.excluded == {}
    ensures s.Input(report).copiedRegion == {} || IsRect(s.Input(report).copiedRegion)
  {
    hide AddCopy, IsRect;
    var added := AddCopy(s.keeper, s.border, report.copyRect, report.copySrc);
    AddCopyWellFormed(s.keeper, s.border, report.copyRect, report.copySrc);
    assert s.Input(report).copiedRegion == Crop(added.copiedRegion, s.border);
    if added.copiedRegion != {} {
      CroppedRect(added.copiedRegion, s.border);
    }
  }

  lemma SingleIsCovered(s: Snapshot, report: DriverReport)
    requires OneCopied(s.Input(report))
    ensures s.Covers(report)
  {
    hide GetRectVector, OnlyFirstMoves, Snapshot.StartsOver, Snapshot.TellsPicture, Snapshot.Input;
    var rects := GetRectVector(s.Input(report).copiedRegion);
    RectVectorLists(s.Input(report).copiedRegion);
    FirstCorner(rects, s.Input(report).copiedRegion);
    SingleOnlyFirst(rects, s.Input(report).copySrc, Pixels(s.picture.dim.GetRect()));
  }

  /** The client's picture and the server's handler. */
  datatype Link = Link(client: Picture, server: Snapshot)

  /** The pictures agree, or the next reply holds every pixel. */
  ghost predicate InStep(l: Link) {
    && SameShape(l.client, l.server.picture)
    && l.client.frame.Keys == l.server.picture.frame.Keys == Pixels(l.client.dim.GetRect())
    && (Agree(l) || l.server.absolute == l.server.picture.dim.GetRect())
  }

  ghost predicate Agree(l: Link) {
    l.client.frame == l.server.picture.frame
  }

  datatype Event =
    | KeeperEvent(op: Operation)
    | Exclude(region: Region)
    | DisplayChanges(display: Properties)
    | Extraction(report: DriverReport, pass: Pass, c: UpdateContainer, m: Reply, shape: Shape, after: Snapshot)

  ghost predicate CanHappen(l: Link, e: Event) {
    match e
    case KeeperEvent(op) => true
    case Exclude(region) => true
    case DisplayChanges(display) => true
    case Extraction(report, pass, c, m, shape, after) =>
      && Extracts(l.server, report, pass, c, after) && Tells(m, c, after.picture, shape)
      && after.picture.frame.Keys == Pixels(after.picture.dim.GetRect()) && IsFull(after.picture)
  }

  ghost function Next(l: Link, e: Event): Link {
    match e
    case KeeperEvent(op) => l.(server := l.server.(keeper := Apply(l.server.keeper, l.server.border, op)))
    case Exclude(region) => l.(server := l.server.(excluded := region))
    case DisplayChanges(display) => l.(server := l.server.(display := display))
    case Extraction(report, pass, c, m, shape, after) => Link(Received(l.client, m), after)
  }

  /** What the reply holds covers whatever the client's picture lacks: the changes
      of this extraction, or all pixels after the backup started over. */
  lemma ReplyCoversDifference(l: Link, e: Event)
    requires InStep(l) && e.Extraction? && CanHappen(l, e)
    requires !l.server.StartsOver(e.report) && !l.server.TellsPicture(e.report) && l.server.Covers(e.report)
    ensures ChangedOnlyIn(l.client.frame, e.after.picture.frame, ContainerOf(e.m).Dirty())
  {
    hide Tells, AddCopy, IsRect, ContainerOf, ToFilter, Filters, OnlyFirstMoves, GetRectVector, Sent, Pixels;
    CopyIsTold(e.m, e.c, e.after.picture, e.shape);
    NothingElseTold(e.m, e.c, e.after.picture, e.shape);
    PassParts(l.server, e.report, e.pass, e.c, e.after);
    if l.server.absolute.IsEmpty() {
      FilterChanges(l.server, e.report, e.pass, e.after);
      EmptyIsEqual(l);
      SentIsTold(e, GetRectVector(l.server.Input(e.report).copiedRegion));
    }
  }

  lemma EmptyIsEqual(l: Link)
    requires InStep(l) && l.server.absolute.IsEmpty()
    ensures l.client.frame == l.server.picture.frame
  {
    if l.server.absolute == l.server.picture.dim.GetRect() {
      assert Pixels(l.server.absolute) == {};
    }
  }

  lemma SentIsTold(e: Event, rects: seq<Rect>)
    requires e.Extraction? && e.c.changedRegion == e.pass.filtered.changedRegion
    requires ContainerOf(e.m).copiedRegion == if rects == [] then {} else Pixels(rects[0])
    requires ContainerOf(e.m).changedRegion == e.c.changedRegion
    ensures Sent(e.pass.filtered, rects) == ContainerOf(e.m).Dirty()
  {
    hide ContainerOf;
  }

  /** Of the copied rectangles the reply holds the first. */
  lemma CopyIsTold(m: Reply, c: UpdateContainer, q: Picture, shape: Shape)
    requires Tells(m, c, q, shape)
    ensures var rects := GetRectVector(c.copiedRegion);
            ContainerOf(m).copiedRegion == if rects == [] then {} else Pixels(rects[0])
  {
    hide ChangedTells, ScreenTells, ShowsRect, GetRectVector;
    RectVectorLists(c.copiedRegion);
    FirstCorner(GetRectVector(c.copiedRegion), c.copiedRegion);
  }

  lemma PassParts(s: Snapshot, report: DriverReport, pass: Pass, c: UpdateContainer, s': Snapshot)
    requires Extracts(s, report, pass, c, s') && !s.StartsOver(report)
    ensures pass.ending in {Normal, Unsynchronized} && Filters(s, report, pass, s')
    ensures c.copiedRegion == s.Input(report).copiedRegion && s'.Backup() == s.Backup()
    ensures if s.absolute.IsEmpty() then c.changedRegion == pass.filtered.changedRegion
            else Pixels(s.picture.dim.GetRect()) <= c.changedRegion
  {
    hide AddCopy, ToFilter, MovedAll, GetRectVector;
  }

  /** An extraction whose reply covers its changes keeps the replica in step, and
      the pictures agree after it, unless it starts the backup over without
      telling: then the client's picture stays what it was. */
  lemma ExtractionStaysInStep(l: Link, e: Event)
    requires InStep(l) && e.Extraction? && CanHappen(l, e) && l.server.Covers(e.report)
    ensures !l.server.UntoldSize(e.report) ==> InStep(Next(l, e))
    ensures !l.server.Untold(e.report) ==> Agree(Next(l, e))
    ensures l.server.Untold(e.report) ==> Next(l, e).client == l.client
    ensures l.server.UntoldSize(e.report) ==> Next(l, e).client.dim != Next(l, e).server.picture.dim
  {
    hide Tells, Extracts, Received, Pixels, ChangedOnlyIn, ContainerOf, Snapshot.TellsPicture, Snapshot.StartsOver,
         Snapshot.Covers;
    NoScreenNoChange(l.server, e.report, e.pass, e.c, e.after, e.m, e.shape);
    PropertiesTold(l.server, e.report, e.pass, e.c, e.after);
    if l.server.Untold(e.report) {
      NothingReceived(l.client, e.m, e.c, e.after.picture, e.shape);
    } else if e.pass.ending != Restarted && e.m.screen.None? {
      ReplyCoversDifference(l, e);
    }
    if !l.server.UntoldSize(e.report) {
      Transmitted(l.client, e.m, e.c, e.after.picture, e.shape);
      ReceivedKeys(l.client, e.m, e.c, e.after.picture, e.shape);
    }
  }

  lemma ReceivedKeys(p: Picture, m: Reply, c: UpdateContainer, q: Picture, shape: Shape)
    requires Tells(m, c, q, shape) && (m.screen.None? ==> SameShape(p, q))
    requires p.frame.Keys == Pixels(p.dim.GetRect()) && q.frame.Keys == Pixels(q.dim.GetRect())
    ensures Received(p, m).frame.Keys == q.frame.Keys
  {
    hide ChangedTells, CopyTells, PatchedAll, IsRectVector, Pixels, ContentOf;
  }

  ghost function Run(l: Link, events: seq<Event>): Link {
    if events == [] then l else Next(Run(l, events[..|events| - 1]), events[|events| - 1])
  }

  ghost predicate CanRun(l: Link, events: seq<Event>) {
    forall i :: 0 <= i < |events| ==> CanHappen(Run(l, events[..i]), events[i])
  }

  /** Before every extraction its reply is known to cover what will change, and no
      untold size is due. */
  ghost predicate IsCovered(l: Link, events: seq<Event>) {
    forall i :: 0 <= i < |events| && events[i].Extraction? ==> KeepsStep(Run(l, events[..i]).server, events[i].report)
  }

  ghost predicate KeepsStep(s: Snapshot, report: DriverReport) {
    s.Covers(report) && !s.UntoldSize(report)
  }

  lemma {:induction false} RunStaysInStep(l: Link, events: seq<Event>)
    requires InStep(l) && CanRun(l, events) && IsCovered(l, events)
    ensures InStep(Run(l, events))
  {
    hide CanHappen, InStep, KeepsStep, Next;
    if events != [] {
      var n := |events| - 1;
      assert forall i :: 0 <= i < n ==> events[..n][..i] == events[..i];
      RunStaysInStep(l, events[..n]);
      EventStaysInStep(Run(l, events[..n]), events[n]);
    }
  }

  lemma EventStaysInStep(l: Link, e: Event)
    requires InStep(l) && CanHappen(l, e) && (e.Extraction? ==> KeepsStep(l.server, e.report))
    ensures InStep(Next(l, e))
  {
    hide Extracts, Tells, Snapshot.Covers, Snapshot.UntoldSize;
    if e.Extraction? {
      ExtractionStaysInStep(l, e);
    }
  }

  /** After every completed exchange of every session the client's buffer is the
      server's backup, unless an untold restart was due before it. */
  lemma RunEndsInAgreement(l: Link, events: seq<Event>)
    requires InStep(l) && CanRun(l, events) && IsCovered(l, events)
    requires events != [] && events[|events| - 1].Extraction?
    ensures SameShape(Run(l, events).client, Run(l, events).server.picture)
    ensures !Run(l, events[..|events| - 1]).server.Untold(events[|events| - 1].report) ==> Agree(Run(l, events))
  {
    hide CanHappen, Snapshot.Covers, Snapshot.UntoldSize, Snapshot.Untold, Extracts, Tells, Received;
    var n := |events| - 1;
    assert forall i :: 0 <= i < n ==> events[..n][..i] == events[..i];
    assert KeepsStep(Run(l, events[..n]).server, events[n].report);
    RunStaysInStep(l, events[..n]);
    ExtractionStaysInStep(Run(l, events[..n]), events[n]);
  }

  /** While nothing is excluded, copied regions are single, so every reply covers
      what changes. */
  lemma {:induction false} RunCopiesAreSingle(l: Link, events: seq<Event>)
    requires CanRun(l, events) && WellFormed(l.server.keeper) && l.server.excluded == {}
    requires forall i :: 0 <= i < |events| && events[i].Exclude? ==> events[i].region == {}
    ensures forall i :: 0 <= i < |events| && events[i].Extraction? ==>
              OneCopied(Run(l, events[..i]).server.Input(events[i].report)) &&
              Run(l, events[..i]).server.Covers(events[i].report)
    ensures WellFormed(Run(l, events).server.keeper) && Run(l, events).server.excluded == {}
  {
    hide CanHappen, Next, WellFormed, OneCopied, Snapshot.Covers, Snapshot.Input;
    if events != [] {
      var n := |events| - 1;
      assert forall i :: 0 <= i < n ==> events[..n][..i] == events[..i];
      RunCopiesAreSingle(l, events[..n]);
      EventCopiesAreSingle(Run(l, events[..n]), events[n]);
    }
  }

  lemma EventCopiesAreSingle(l: Link, e: Event)
    requires CanHappen(l, e) && WellFormed(l.server.keeper) && l.server.excluded == {} &&
             (e.Exclude? ==> e.region == {})
    ensures e.Extraction? ==> OneCopied(l.server.Input(e.report)) && l.server.Covers(e.report)
    ensures WellFormed(Next(l, e).server.keeper) && Next(l, e).server.excluded == {}
  {
    hide Tells, Received, AddCopy, IsRect, Apply, Extracts, ToFilter, Snapshot.Covers;
    match e
    case KeeperEvent(op) => ApplyWellFormed(l.server.keeper, l.server.border, op);
    case Exclude(region) =>
    case DisplayChanges(display) =>
    case Extraction(report, pass, c, m, shape, after) =>
      OneRectExtracted(l.server, report);
      SingleIsCovered(l.server, report);
      KeeperStaysWellFormed(l.server, report, pass, c, after);
  }

  lemma ApplyWellFormed(c: UpdateContainer, border: Rect, op: Operation)
    requires WellFormed(c)
    ensures WellFormed(Apply(c, border, op))
  {
    hide AddCopy, IsRect;
    match op
    case Redraw(region) =>
    case CopyRect(rect, src) => AddCopyWellFormed(c, border, rect, src);
    case Merge(other, rects) =>
      if rects != [] {
        AddCopyWellFormed(c, border, rects[0], other.copySrc);
      }
  }

  lemma KeeperStaysWellFormed(s: Snapshot, report: DriverReport, pass: Pass, c: UpdateContainer, s': Snapshot)
    requires Extracts(s, report, pass, c, s') && WellFormed(s.keeper) && s.excluded == {}
    ensures WellFormed(s'.keeper) && s'.excluded == {}
  {
    hide AddCopy, IsRect;
  }

  // ---------- Copied regions of several rectangles ----------

  /** A copied region arrives whole exactly when it is at most one rectangle. */
  lemma CopyToldWholeIff(m: Reply, c: UpdateContainer, q: Picture, shape: Shape)
    requires Tells(m, c, q, shape)
    ensures ContainerOf(m).copiedRegion <= c.copiedRegion
    ensures ContainerOf(m).copiedRegion == c.copiedRegion <==> OneCopied(c)
  {
    hide ChangedTells, ScreenTells, ShowsRect, ContentOf, GetRectVector;
    var rects := GetRectVector(c.copiedRegion);
    RectVectorLists(c.copiedRegion);
    FirstCorner(rects, c.copiedRegion);
    CopyIsTold(m, c, q, shape);
    if rects != [] {
      assert !rects[0].IsEmpty();
      assert forall p :: p in Pixels(rects[0]) ==> p in c.copiedRegion;
    }
  }

  lemma NothingElseTold(m: Reply, c: UpdateContainer, q: Picture, shape: Shape)
    requires Tells(m, c, q, shape)
    ensures ContainerOf(m).changedRegion == c.changedRegion
  {
    hide AllShow, CopyTells, ScreenTells, ShowsRect, IsRectVector, UnionOf;
    UnionOfRectVector(RectsOf(m.changed), c.changedRegion);
  }

  // ---------- The objects take these steps ----------

  ghost function LinkOf(client: UpdateHandlerClient, server: UpdateHandlerServer): Link
    requires client.backup.Valid() && server.Valid()
    reads client, client.backup, client.backup.buffer, server, server.handler, server.handler.keeper,
          server.handler.driver, server.handler.driver.screen, server.handler.driver.desktop, server.handler.filter,
          server.handler.backup, server.handler.backup.buffer, server.handler.filter.grabOptimizator
  {
    Link(PictureOf(client.backup), SnapshotOf(server.handler))
  }

  /** The connection is made: the server starts from the client's picture. */
  method Connect(client: UpdateHandlerClient, server: UpdateHandlerServer, gate: Gate) returns (r: Result<Screen>)
    requires client.backup.Valid() && server.handler.Valid() && Apart(client, server) && gate.data == []
    requires PixelFormatFits(client.backup.pf) && PixelFormatAccepted(client.backup.pf) &&
             DimensionAccepted(client.backup.dim)
    modifies gate, server`oldPf, server.handler.backup
    ensures r.Ok? && gate.data == []
    ensures client.backup.Valid() && server.Valid() && Apart(client, server)
    ensures InStep(LinkOf(client, server)) && Agree(LinkOf(client, server))
    ensures SnapshotOf(server.handler) == old(SnapshotOf(server.handler)).(picture := PictureOf(server.handler.backup))
    ensures PropertiesOf(server.handler.backup) ==
            Properties(client.backup.dim, client.backup.pf.(bigEndian := old(server.oldPf).bigEndian))
  {
    hide EncInit, DecInit, FrameBuffer.Content, Dimension.Area, Pixels, GrabOptimizator.Valid, ScreenDriver.Valid,
         ContentOf, ShowsRect, PayloadSize, EncPixelFormat, EncDimension;
    ghost var p := PictureOf(client.backup);
    ghost var bytes := client.SendInit(gate);
    ghost var s := Screen(client.backup.pf, client.backup.dim, bytes);
    WholeShown(bytes, client.backup.dim, client.backup.pf.BytesPerPixel(), client.backup.Content());
    InitWritten(s, server.oldPf.bigEndian, gate.data);
    r := server.ServerInit(gate);
  }

  lemma InitWritten(s: Screen, bigEndian: bool, data: Bytes)
    requires PixelFormatFits(s.pf) && PixelFormatAccepted(s.pf) && DimensionAccepted(s.dim)
    requires Fits(s.pixels, s.dim, s.pf.BytesPerPixel())
    requires data == [] + (EncPixelFormat(s.pf) + (EncDimension(s.dim) + s.pixels))
    ensures DecInit(bigEndian, data) == Got(s.(pf := s.pf.(bigEndian := bigEndian)), [])
  {
    hide EncPixelFormat, EncDimension, DecInit, Dimension.Area;
    InitRoundTrip(bigEndian, s, []);
    assert EncInit(s) + [] == data;
  }

  /** The display of the machine changes. */
  method ChangeDisplay(client: UpdateHandlerClient, server: UpdateHandlerServer, now: Properties)
    requires client.backup.Valid() && server.Valid() && Apart(client, server) && now.pf.IsValid()
    modifies server.handler.driver.desktop
    ensures client.backup.Valid() && server.Valid() && Apart(client, server)
    ensures LinkOf(client, server) == Next(old(LinkOf(client, server)), DisplayChanges(now))
  {
    hide FrameBuffer.Content, Dimension.Area, Pixels, GrabOptimizator.Valid;
    server.handler.driver.desktop.SetProperties(now.dim, now.pf);
  }

  /** An exchange between the objects is an extraction event. */
  method ExchangeTracked(client: UpdateHandlerClient, server: UpdateHandlerServer, report: DriverReport, shape: Shape,
                         gate: Gate)
    returns (r: Result<UpdateContainer>, ending: Ending, ghost e: Event)
    requires client.backup.Valid() && server.Valid() && Apart(client, server) && gate.data == []
    requires InStep(LinkOf(client, server))
    modifies client`cursorShape, client.backup, client.backup.buffer, gate,
             server`oldPf, server.handler.keeper`container, server.handler.keeper`borderRect,
             server.handler`absoluteRect, server.handler`fullUpdateRequested, server.handler.backup,
             server.handler.backup.buffer, server.handler.driver`screen, server.handler.driver.screen.buffer,
             server.handler.filter.grabOptimizator
    ensures e.Extraction? && e.report == report && e.shape == shape && e.pass.ending == ending
    ensures ending != Thrown ==>
              && server.Valid() && e.pass.shown == old(server.handler.driver.desktop.Content())
              && e.pass.shown == server.handler.driver.desktop.Content()
    ensures ending != Thrown && InRange(e.m, server.handler.backup.pf.BytesPerPixel()) ==>
              && r == Ok(ContainerOf(e.m)) && gate.data == []
              && client.backup.Valid() && server.Valid() && Apart(client, server)
              && CanHappen(old(LinkOf(client, server)), e)
              && LinkOf(client, server) == Next(old(LinkOf(client, server)), e)
              && (old(SnapshotOf(server.handler)).Covers(report) ==>
                    && (!old(SnapshotOf(server.handler)).UntoldSize(report) ==> InStep(LinkOf(client, server)))
                    && (if old(SnapshotOf(server.handler)).Untold(report)
                        then PictureOf(client.backup) == old(PictureOf(client.backup))
                        else Agree(LinkOf(client, server))))
  {
    hide FrameBuffer.Content, Dimension.Area, Tells, InRange, Extracts, GrabOptimizator.Valid, ScreenDriver.Valid,
         FrameBuffer.Valid, ContainerOf, Received, Pixels, Exchanged, Snapshot.Covers, Snapshot.Untold,
         Snapshot.UntoldSize;
    ghost var pass, m, c;
    ghost var l := LinkOf(client, server);
    r, ending, pass, m, c := Exchange(client, server, report, shape, gate);
    e := Extraction(report, Pass(ending, EMPTY_CONTAINER, map[], map[]), c, m, shape, l.server);
    if ending != Thrown {
      e := Extraction(report, pass, c, m, shape, SnapshotOf(server.handler));
      PictureIsFull(server.handler.backup);
      if InRange(m, server.handler.backup.pf.BytesPerPixel()) {
        assert PictureOf(client.backup) == Received(l.client, m);
        assert LinkOf(client, server) == Next(l, e);
        if l.server.Covers(report) {
          ExtractionStaysInStep(l, e);
        }
      }
    }
  }
}
