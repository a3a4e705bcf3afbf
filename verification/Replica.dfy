/** The replica of the backup picture in the other process
    (desktop-ipc/UpdateHandlerServer.cpp, desktop-ipc/UpdateHandlerClient.cpp).

    The server sends rectangles with their pixels, the client puts them into its
    own frame buffer.  Both ends together are in module ReplicaSessions. */
module Replica {
  import opened Geometry
  import opened Regions
  import opened Frames
  import opened FrameBuffers
  import opened Codec
  import opened Gates
  import opened ExtractReplies
  import opened GrabOptimizators
  import opened ScreenDrivers
  import opened UpdateKeepers
  import opened UpdateFilters
  import opened UpdateHandlers
  import opened KeeperMeaning
  import opened FilterMeaning
  import opened Options

  // ---------- Pixels on the wire ----------

  /** The bytes show `f` in the rectangle `r`, where `f` has pixels. */
  ghost predicate ShowsRect(bytes: Bytes, r: Rect, bpp: nat, f: Frame) {
    && Fits(bytes, DimensionOf(r), bpp)
    && forall p :: p in f && r.Contains(p) ==>
         && Minus(p, r.TopLeft()) in ContentOf(bytes, DimensionOf(r), bpp)
         && ContentOf(bytes, DimensionOf(r), bpp)[Minus(p, r.TopLeft())] == f[p]
  }

  /** The picture after the pixels of a rectangle arrived. */
  ghost function Patched1(f: Frame, bpp: nat, patch: Patch): (m: Frame)
    ensures m.Keys == f.Keys
  {
    if Fits(patch.pixels, DimensionOf(patch.rect), bpp)
    then Copied(f, patch.rect, ContentOf(patch.pixels, DimensionOf(patch.rect), bpp), Point(0, 0))
    else f
  }

  ghost function PatchedAll(f: Frame, bpp: nat, patches: seq<Patch>): (m: Frame)
    ensures m.Keys == f.Keys
  {
    if patches == [] then f
    else Patched1(PatchedAll(f, bpp, patches[..|patches| - 1]), bpp, patches[|patches| - 1])
  }

  /** A rectangle that shows `g` turns its part of the picture into `g`. */
  lemma PatchTakesOver(f: Frame, bpp: nat, patch: Patch, g: Frame)
    requires f.Keys == g.Keys && ShowsRect(patch.pixels, patch.rect, bpp, g)
    ensures Patched1(f, bpp, patch) == Patched(f, Pixels(patch.rect), g)
  {
    hide ContentOf;
    forall p | p in f ensures Patched1(f, bpp, patch)[p] == Patched(f, Pixels(patch.rect), g)[p] {
      assert Plus(Minus(p, patch.rect.TopLeft()), Point(0, 0)) == Minus(p, patch.rect.TopLeft());
    }
  }

  function RectsOf(patches: seq<Patch>): (rects: seq<Rect>)
    ensures |rects| == |patches| && forall i :: 0 <= i < |rects| ==> rects[i] == patches[i].rect
  {
    seq(|patches|, i requires 0 <= i < |patches| => patches[i].rect)
  }

  ghost predicate AllShow(patches: seq<Patch>, bpp: nat, g: Frame) {
    forall i :: 0 <= i < |patches| ==> ShowsRect(patches[i].pixels, patches[i].rect, bpp, g)
  }

  lemma {:induction false} PatchesTakeOver(f: Frame, bpp: nat, patches: seq<Patch>, g: Frame)
    requires f.Keys == g.Keys && AllShow(patches, bpp, g)
    ensures PatchedAll(f, bpp, patches) == Patched(f, UnionOf(RectsOf(patches)), g)
  {
    hide ShowsRect, Patched, Patched1, UnionOf;
    if patches == [] {
      assert RectsOf(patches) == [];
      UnionOfNothing();
      PatchedNothing(f, g);
    } else {
      var n := |patches| - 1;
      var u := UnionOf(RectsOf(patches[..n]));
      PatchesTakeOver(f, bpp, patches[..n], g);
      PatchTakesOver(Patched(f, u, g), bpp, patches[n], g);
      assert RectsOf(patches)[..n] == RectsOf(patches[..n]);
      PatchedTwice(f, u, Pixels(patches[n].rect), g);
      UnionOfNext(RectsOf(patches), n);
      assert RectsOf(patches)[..n + 1] == RectsOf(patches);
    }
  }

  lemma UnionOfNothing()
    ensures UnionOf([]) == {}
  {
  }

  lemma PatchedTwice(f: Frame, a: Region, b: Region, g: Frame)
    ensures Patched(Patched(f, a, g), b, g) == Patched(f, a + b, g)
  {
  }

  method SendFrameBuffer(fb: FrameBuffer, rect: Rect, gate: Gate) returns (ghost bytes: Bytes)
    requires fb.Valid()
    modifies gate
    ensures gate.data == old(gate.data) + bytes
    ensures ShowsRect(bytes, rect, fb.pf.BytesPerPixel(), fb.Content())
  {
    hide ContentOf, Copied, Dimension.Area;
    var temp := new FrameBuffer(DimensionOf(rect), fb.pf);
    ghost var junk := temp.Content();
    var ok := temp.CopyFrom(temp.dim.GetRect(), fb, rect.left, rect.top);
    bytes := temp.buffer[..];
    CutOut(junk, rect, fb.Content(), temp.Content());
    gate.WriteFully(temp.buffer[..]);
  }

  lemma CutOut(junk: Frame, rect: Rect, f: Frame, out: Frame)
    requires junk.Keys == Pixels(DimensionOf(rect).GetRect())
    requires out == Copied(junk, DimensionOf(rect).GetRect(), f, rect.TopLeft())
    ensures forall p :: p in f && rect.Contains(p) ==>
              Minus(p, rect.TopLeft()) in out && out[Minus(p, rect.TopLeft())] == f[p]
  {
    forall p | p in f && rect.Contains(p)
      ensures Minus(p, rect.TopLeft()) in out && out[Minus(p, rect.TopLeft())] == f[p]
    {
      var q := Minus(p, rect.TopLeft());
      assert q in junk;
      assert Plus(Minus(q, Point(0, 0)), rect.TopLeft()) == p;
    }
  }

  method ReadFrameBuffer(fb: FrameBuffer, rect: Rect, gate: Gate) returns (r: Result<Bytes>)
    requires fb.Valid()
    modifies fb.buffer, gate
    ensures Reads(DecBytes(PayloadSize(DimensionOf(rect), fb.pf.BytesPerPixel()), old(gate.data)), r, gate.data)
    ensures r.Ok? ==> |r.value| == PayloadSize(DimensionOf(rect), fb.pf.BytesPerPixel())
    ensures fb.Content() ==
            if r.Ok? then Patched1(old(fb.Content()), fb.pf.BytesPerPixel(), Patch(rect, r.value))
            else old(fb.Content())
  {
    hide Copied, Dimension.Area, ContentOf;
    var temp := new FrameBuffer(DimensionOf(rect), fb.pf);
    ghost var before := fb.Content();
    r := gate.ReadFully(temp.buffer.Length);
    if r.Err? {
      return;
    }
    var bytes := r.value;
    forall i | 0 <= i < temp.buffer.Length {
      temp.buffer[i] := bytes[i];
    }
    assert temp.buffer[..] == bytes;
    var ok := fb.CopyFrom(rect, temp, 0, 0);
  }

  // ---------- The receiving half ----------

  datatype Picture = Picture(dim: Dimension, pf: PixelFormat, frame: Frame)

  ghost function PictureAfterScreen(p: Picture, screen: Option<Screen>): Picture {
    match screen
    case None => p
    case Some(s) =>
      Picture(s.dim, s.pf,
              if Fits(s.pixels, s.dim, s.pf.BytesPerPixel()) then ContentOf(s.pixels, s.dim, s.pf.BytesPerPixel())
              else map[])
  }

  ghost function FrameAfterCopy(f: Frame, bpp: nat, copy: Option<Copy>): Frame {
    if copy.Some? then Patched1(f, bpp, copy.value.patch) else f
  }

  /** The receiver's picture after the message. */
  ghost function Received(p: Picture, m: Reply): Picture {
    var q := PictureAfterScreen(p, m.screen);
    var bpp := q.pf.BytesPerPixel();
    q.(frame := FrameAfterCopy(PatchedAll(q.frame, bpp, m.changed), bpp, m.copy))
  }

  function ContainerOf(m: Reply): UpdateContainer {
    UpdateContainer(
      if m.copy.Some? then Pixels(m.copy.value.patch.rect) else {},
      UnionOf(RectsOf(m.changed)),
      UnionOf(m.video),
      m.screen.Some?,
      m.cursorPosChanged,
      m.shape.Some?,
      if m.copy.Some? then m.copy.value.src else Point(0, 0),
      m.cursorPos)
  }

  ghost function PictureOf(fb: FrameBuffer): Picture
    requires fb.Valid()
    reads fb, fb.buffer
  {
    Picture(fb.dim, fb.pf, fb.Content())
  }

  /** What is still to be read after the patches in `read`. */
  ghost function PatchesBefore(read: seq<Patch>, p: Parsed<seq<Patch>>): Parsed<seq<Patch>> {
    match p
    case Got(more, rest) => Got(read + more, rest)
    case Failed(error) => Failed(error)
  }

  lemma NoPatchRead(p: Parsed<seq<Patch>>)
    ensures PatchesBefore([], p) == p
  {
    if p.Got? {
      assert [] + p.value == p.value;
    }
  }

  lemma OnePatchRead(read: seq<Patch>, patch: Patch, p: Parsed<seq<Patch>>)
    ensures PatchesBefore(read, PatchesBefore([patch], p)) == PatchesBefore(read + [patch], p)
  {
    if p.Got? {
      assert read + ([patch] + p.value) == read + [patch] + p.value;
    }
  }

  /** The container accounts for what became of the picture: it says that the
      whole picture is new, or holds every pixel that changed. */
  ghost predicate AccountsFor(c: UpdateContainer, before: Picture, after: Picture) {
    || c.screenSizeChanged
    || (after.dim == before.dim && after.pf == before.pf && ChangedOnlyIn(before.frame, after.frame, c.Dirty()))
  }

  lemma PatchChangesInside(f: Frame, bpp: nat, patch: Patch)
    ensures ChangedOnlyIn(f, Patched1(f, bpp, patch), Pixels(patch.rect))
  {
    hide ContentOf, Pixels;
  }

  lemma ChangedTwice(f: Frame, g: Frame, h: Frame, a: Region, b: Region)
    requires ChangedOnlyIn(f, g, a) && ChangedOnlyIn(g, h, b)
    ensures ChangedOnlyIn(f, h, a + b)
  {
  }

  lemma UnionWithNext(patches: seq<Patch>, patch: Patch)
    ensures UnionOf(RectsOf(patches + [patch])) == UnionOf(RectsOf(patches)) + Pixels(patch.rect)
  {
    hide UnionOf, Pixels;
    var rects := RectsOf(patches + [patch]);
    UnionOfNext(rects, |patches|);
    assert rects[..|patches|] == RectsOf(patches) && rects[..|patches| + 1] == rects;
  }

  predicate FlagAtFront(data: Bytes) {
    data != [] && data[0] != 0
  }

  lemma FlagIsFirstByte(data: Bytes)
    ensures DecU8(data).Got? ==> (DecU8(data).value != 0 <==> FlagAtFront(data))
    ensures DecU8(data).Failed? ==> !FlagAtFront(data)
  {
  }

  class UpdateHandlerClient {
    var backup: FrameBuffer
    var cursorShape: Shape

    constructor (dim: Dimension, pf: PixelFormat)
      requires pf.IsValid()
      ensures backup.Valid() && fresh(backup) && fresh(backup.buffer) && backup.dim == dim && backup.pf == pf
    {
      backup := new FrameBuffer(dim, pf);
      cursorShape := Shape(Dimension(0, 0), Point(0, 0), [], []);
    }

    /** `sendInit`: the server starts from the client's picture. */
    method SendInit(gate: Gate) returns (ghost bytes: Bytes)
      requires backup.Valid()
      modifies gate
      ensures gate.data == old(gate.data) + (EncPixelFormat(backup.pf) + (EncDimension(backup.dim) + bytes))
      ensures ShowsRect(bytes, backup.dim.GetRect(), backup.pf.BytesPerPixel(), backup.Content())
    {
      hide EncPixelFormat, EncDimension, ShowsRect, Dimension.Area;
      SendPixelFormat(backup.pf, gate);
      SendDimension(backup.dim, gate);
      bytes := SendFrameBuffer(backup, backup.dim.GetRect(), gate);
    }

    /** `told` says that new properties were announced, even if they did not come. */
    method ReceiveScreen(gate: Gate) returns (r: Result<Option<Screen>>, told: bool)
      requires backup.Valid()
      modifies backup, backup.buffer, gate
      ensures Reads(DecScreen(old(gate.data)), r, gate.data)
      ensures backup.Valid() && (backup.buffer == old(backup.buffer) || fresh(backup.buffer))
      ensures told == FlagAtFront(old(gate.data))
      ensures !told ==> PictureOf(backup) == old(PictureOf(backup))
      ensures r.Ok? ==>
              told == r.value.Some? && PictureOf(backup) == PictureAfterScreen(old(PictureOf(backup)), r.value)
    {
      hide DecPixelFormat, DecDimension, DecBytes, PayloadSize, DecU8, ContentOf, Dimension.Area, PixelFormat.IsValid;
      told := false;
      FlagIsFirstByte(gate.data);
      var flag :- gate.ReadUInt8();
      if flag == 0 {
        return Ok(None), false;
      }
      told := true;
      var newPf :- ReadPixelFormat(NO_FORMAT, gate);
      var newDim :- ReadDimension(gate);
      var pixels :- ReceivePixels(newPf, newDim, gate);
      r := Ok(Some(Screen(newPf, newDim, pixels)));
    }

    /** Take over the new properties if they differ, then the whole picture. */
    method ReceivePixels(newPf: PixelFormat, newDim: Dimension, gate: Gate) returns (r: Result<Bytes>)
      requires backup.Valid() && newPf.IsValid()
      modifies backup, backup.buffer, gate
      ensures Reads(DecBytes(PayloadSize(newDim, newPf.BytesPerPixel()), old(gate.data)), r, gate.data)
      ensures backup.Valid() && (backup.buffer == old(backup.buffer) || fresh(backup.buffer))
      ensures r.Ok? ==> backup.dim == newDim && backup.pf == newPf && Fits(r.value, newDim, newPf.BytesPerPixel()) &&
                        backup.Content() == ContentOf(r.value, newDim, newPf.BytesPerPixel())
    {
      hide DecBytes, Patched1, ContentOf, Dimension.Area;
      if newPf != backup.pf || newDim != backup.dim {
        backup.SetProperties(newDim, newPf);
      }
      ghost var junk := backup.Content();
      assert DimensionOf(backup.dim.GetRect()) == newDim;
      r := ReadFrameBuffer(backup, backup.dim.GetRect(), gate);
      if r.Ok? {
        WholePicture(junk, newDim, newPf.BytesPerPixel(), r.value);
      }
    }

    /** `region` is the rectangle, as soon as it is known. */
    method ReceivePatch(gate: Gate) returns (r: Result<Patch>, region: Region)
      requires backup.Valid()
      modifies backup.buffer, gate
      ensures Reads(DecPatch(backup.pf.BytesPerPixel(), old(gate.data)), r, gate.data)
      ensures ChangedOnlyIn(old(backup.Content()), backup.Content(), region)
      ensures r.Ok? ==> region == Pixels(r.value.rect)
      ensures r.Ok? ==> backup.Content() == Patched1(old(backup.Content()), backup.pf.BytesPerPixel(), r.value)
    {
      hide DecRect, DecBytes, PayloadSize, Patched1, FrameBuffer.Content, Dimension.Area, Pixels;
      region := {};
      var rect :- ReadRect(gate);
      region := Pixels(rect);
      ghost var f := backup.Content();
      var pixels :- ReadFrameBuffer(backup, rect, gate);
      r := Ok(Patch(rect, pixels));
      PatchChangesInside(f, backup.pf.BytesPerPixel(), Patch(rect, pixels));
    }

    method ReceiveChanged(gate: Gate) returns (r: Result<seq<Patch>>, region: Region)
      requires backup.Valid()
      modifies backup.buffer, gate
      ensures Reads(DecChanged(backup.pf.BytesPerPixel(), old(gate.data)), r, gate.data)
      ensures ChangedOnlyIn(old(backup.Content()), backup.Content(), region)
      ensures r.Ok? ==> region == UnionOf(RectsOf(r.value))
      ensures r.Ok? ==> backup.Content() == PatchedAll(old(backup.Content()), backup.pf.BytesPerPixel(), r.value)
    {
      hide DecU32, DecPatch, Patched1, FrameBuffer.Content, Dimension.Area, ChangedOnlyIn, Pixels, UnionOf, RectsOf;
      ghost var start, f, bpp := gate.data, backup.Content(), backup.pf.BytesPerPixel();
      region := {};
      UnchangedIsInside(f, region);
      NoPatchTold();
      var count :- gate.ReadUInt32();
      var patches: seq<Patch> := [];
      NoPatchRead(DecPatches(count, bpp, gate.data));
      for i := 0 to count
        invariant DecChanged(bpp, start) == PatchesBefore(patches, DecPatches(count - i, bpp, gate.data))
        invariant backup.Content() == PatchedAll(f, bpp, patches)
        invariant region == UnionOf(RectsOf(patches)) && ChangedOnlyIn(f, backup.Content(), region)
      {
        ghost var before, g := gate.data, backup.Content();
        var patch, more := ReceivePatch(gate);
        ChangedTwice(f, g, backup.Content(), region, more);
        region := region + more;
        if patch.Err? {
          return Err(patch.error), region;
        }
        assert DecPatches(count - i, bpp, before) ==
               PatchesBefore([patch.value], DecPatches(count - i - 1, bpp, gate.data));
        OnePatchRead(patches, patch.value, DecPatches(count - i - 1, bpp, gate.data));
        UnionWithNext(patches, patch.value);
        assert (patches + [patch.value])[..|patches|] == patches;
        patches := patches + [patch.value];
      }
      assert patches + [] == patches;
      r := Ok(patches);
    }

    method ReceiveCopy(gate: Gate) returns (r: Result<Option<Copy>>, src: Point, region: Region)
      requires backup.Valid()
      modifies backup.buffer, gate
      ensures Reads(DecCopy(backup.pf.BytesPerPixel(), old(gate.data)), r, gate.data)
      ensures ChangedOnlyIn(old(backup.Content()), backup.Content(), region)
      ensures r.Ok? ==> region == (if r.value.Some? then Pixels(r.value.value.patch.rect) else {}) &&
                        src == if r.value.Some? then r.value.value.src else Point(0, 0)
      ensures r.Ok? ==> backup.Content() == FrameAfterCopy(old(backup.Content()), backup.pf.BytesPerPixel(), r.value)
    {
      hide DecU8, DecPoint, DecPatch, Patched1, FrameBuffer.Content, Dimension.Area, ChangedOnlyIn, Pixels;
      src, region := Point(0, 0), {};
      UnchangedIsInside(backup.Content(), region);
      var flag :- gate.ReadUInt8();
      if flag == 0 {
        return Ok(None), src, region;
      }
      src :- ReadPoint(gate);
      var patch;
      patch, region := ReceivePatch(gate);
      if patch.Err? {
        return Err(patch.error), src, region;
      }
      r := Ok(Some(Copy(src, patch.value)));
    }

    /** `told` is the flag at the front, even if the shape did not come. */
    method ReceiveShape(gate: Gate) returns (r: Result<Option<Shape>>, told: bool)
      requires backup.Valid()
      modifies this`cursorShape, gate
      ensures Reads(DecShape(backup.pf.BytesPerPixel(), old(gate.data)), r, gate.data)
      ensures told == FlagAtFront(old(gate.data)) && (r.Ok? ==> told == r.value.Some?)
      ensures r.Ok? ==> cursorShape == if r.value.Some? then r.value.value else old(cursorShape)
    {
      hide DecU8, DecPoint, DecDimension, DecBytes, PayloadSize, MaskSize, Dimension.Area;
      told := false;
      FlagIsFirstByte(gate.data);
      var flag :- gate.ReadUInt8();
      if flag == 0 {
        return Ok(None), false;
      }
      told := true;
      var dim :- ReadDimension(gate);
      var hotSpot :- ReadPoint(gate);
      var pixels :- gate.ReadFully(PayloadSize(dim, backup.pf.BytesPerPixel()));
      var mask :- gate.ReadFully(MaskSize(dim));
      cursorShape := Shape(dim, hotSpot, pixels, mask);
      r := Ok(Some(cursorShape));
    }

    /** The rest of the reply, into the buffer as it is now.  `c` is the container
        as far as it got. */
    method ReceiveUpdate(screen: Option<Screen>, gate: Gate) returns (r: Result<()>, c: UpdateContainer, ghost m: Reply)
      requires backup.Valid()
      modifies this`cursorShape, backup.buffer, gate
      ensures Reads(DecUpdate(screen, backup.pf.BytesPerPixel(), old(gate.data)), if r.Ok? then Ok(m) else Err(r.error),
                    gate.data)
      ensures c.screenSizeChanged == screen.Some?
      ensures ChangedOnlyIn(old(backup.Content()), backup.Content(), c.Dirty())
      ensures r.Ok? ==> m.screen == screen && c == ContainerOf(m)
      ensures r.Ok? ==> var bpp := backup.pf.BytesPerPixel();
                        backup.Content() ==
                        FrameAfterCopy(PatchedAll(old(backup.Content()), bpp, m.changed), bpp, m.copy)
    {
      hide DecRegion, DecChanged, DecCopy, DecCursorPos, DecShape, PatchedAll, FrameAfterCopy, FrameBuffer.Content,
           Dimension.Area, UnionOf, Pixels, ChangedOnlyIn;
      m := NO_REPLY;
      c := EMPTY_CONTAINER.(screenSizeChanged := screen.Some?);
      ghost var f := backup.Content();
      UnchangedIsInside(f, c.Dirty());
      var video, rects := ReadRegion(gate);
      if video.Err? {
        return Err(video.error), c, m;
      }
      c := c.(videoRegion := video.value);
      var changed, changedRegion := ReceiveChanged(gate);
      c := c.(changedRegion := changedRegion);
      assert c.Dirty() == changedRegion;
      if changed.Err? {
        return Err(changed.error), c, m;
      }
      ghost var g := backup.Content();
      var copy, src, copiedRegion := ReceiveCopy(gate);
      c := c.(copySrc := src, copiedRegion := copiedRegion);
      ChangedTwice(f, g, backup.Content(), changedRegion, copiedRegion);
      if copy.Err? {
        return Err(copy.error), c, m;
      }
      var cursor, moved := ReadCursorPos(gate);
      c := c.(cursorPosChanged := moved);
      if cursor.Err? {
        return Err(cursor.error), c, m;
      }
      c := c.(cursorPos := cursor.value.1);
      var shape, shapeTold := ReceiveShape(gate);
      c := c.(cursorShapeChanged := shapeTold);
      if shape.Err? {
        return Err(shape.error), c, m;
      }
      m := Reply(screen, rects, changed.value, copy.value, cursor.value.0, cursor.value.1, shape.value);
      r := Ok(());
    }

    /** The part of `extract` after the request.  When the reply breaks off, the
        container is handed out as far as it got, and accounts for the picture. */
    method Receive(gate: Gate) returns (r: Result<()>, c: UpdateContainer, ghost m: Reply)
      requires backup.Valid()
      modifies this`cursorShape, backup, backup.buffer, gate
      ensures Reads(DecReply(old(backup.pf), old(gate.data)), if r.Ok? then Ok(m) else Err(r.error), gate.data)
      ensures backup.Valid() && (backup.buffer == old(backup.buffer) || fresh(backup.buffer))
      ensures AccountsFor(c, old(PictureOf(backup)), PictureOf(backup))
      ensures r.Ok? ==> c == ContainerOf(m) && PictureOf(backup) == Received(old(PictureOf(backup)), m)
    {
      hide DecScreen, DecUpdate, PatchedAll, FrameAfterCopy, FrameBuffer.Content, Dimension.Area, ContainerOf,
           ContentOf, ChangedOnlyIn;
      m := NO_REPLY;
      var screen, told := ReceiveScreen(gate);
      if screen.Err? {
        c := EMPTY_CONTAINER.(screenSizeChanged := told);
        UnchangedIsInside(backup.Content(), c.Dirty());
        return Err(screen.error), c, m;
      }
      r, c, m := ReceiveUpdate(screen.value, gate);
    }
  }

  const NO_REPLY := Reply(None, [], [], None, false, Point(0, 0), None)

  lemma NoPatchTold()
    ensures UnionOf(RectsOf([])) == {}
  {
    assert RectsOf([]) == [];
  }

  /** `moved` is the flag at the front, even if the position did not come. */
  method ReadCursorPos(gate: Gate) returns (r: Result<(bool, Point)>, moved: bool)
    modifies gate
    ensures Reads(DecCursorPos(old(gate.data)), r, gate.data)
    ensures moved == FlagAtFront(old(gate.data)) && (r.Ok? ==> moved == r.value.0)
  {
    hide DecU8, DecPoint;
    moved := false;
    FlagIsFirstByte(gate.data);
    var flag :- gate.ReadUInt8();
    moved := flag != 0;
    var pos :- ReadPoint(gate);
    r := Ok((flag != 0, pos));
  }

  const NO_FORMAT := PixelFormat(0, 0, 0, 0, 0, 0, 0, 0, false)

  /** A payload for the whole buffer is the new picture. */
  lemma WholePicture(junk: Frame, dim: Dimension, bpp: nat, pixels: Bytes)
    requires junk.Keys == Pixels(dim.GetRect()) && bpp > 0
    requires |pixels| == PayloadSize(dim, bpp)
    ensures Fits(pixels, dim, bpp)
    ensures Patched1(junk, bpp, Patch(dim.GetRect(), pixels)) == ContentOf(pixels, dim, bpp)
  {
    hide Copied, ContentOf, Dimension.Area;
    assert DimensionOf(dim.GetRect()) == dim;
    CopiedAll(junk, ContentOf(pixels, dim, bpp), dim.GetRect());
  }

  // ---------- The sending half ----------

  ghost predicate ScreenTells(screen: Option<Screen>, told: bool, p: Picture) {
    match screen
    case None => !told
    case Some(s) =>
      && told && s.pf == p.pf.(bigEndian := false) && s.dim == p.dim
      && Fits(s.pixels, s.dim, s.pf.BytesPerPixel()) && ContentOf(s.pixels, s.dim, s.pf.BytesPerPixel()) == p.frame
  }

  ghost predicate ChangedTells(patches: seq<Patch>, region: Region, bpp: nat, f: Frame) {
    IsRectVector(RectsOf(patches), region) && AllShow(patches, bpp, f)
  }

  /** Only the first rectangle of the copied region is sent. */
  ghost predicate CopyTells(copy: Option<Copy>, c: UpdateContainer, bpp: nat, f: Frame) {
    match copy
    case None => c.copiedRegion == {}
    case Some(cp) =>
      && cp.src == c.copySrc && ShowsRect(cp.patch.pixels, cp.patch.rect, bpp, f)
      && c.copiedRegion != {} && cp.patch.rect == GetRectVector(c.copiedRegion)[0]
  }

  /** The message tells the container `c` and the picture `p`. */
  ghost predicate Tells(m: Reply, c: UpdateContainer, p: Picture, shape: Shape) {
    && ScreenTells(m.screen, c.screenSizeChanged, p)
    && IsRectVector(m.video, c.videoRegion)
    && ChangedTells(m.changed, c.changedRegion, p.pf.BytesPerPixel(), p.frame)
    && CopyTells(m.copy, c, p.pf.BytesPerPixel(), p.frame)
    && m.cursorPosChanged == c.cursorPosChanged && m.cursorPos == c.cursorPos
    && m.shape == if c.cursorShapeChanged then Some(shape) else None
  }

  lemma WholeShown(bytes: Bytes, dim: Dimension, bpp: nat, f: Frame)
    requires ShowsRect(bytes, dim.GetRect(), bpp, f) && f.Keys == Pixels(dim.GetRect())
    ensures Fits(bytes, dim, bpp) && ContentOf(bytes, dim, bpp) == f
  {
    hide ContentOf;
    assert DimensionOf(dim.GetRect()) == dim;
    assert forall p :: Minus(p, dim.GetRect().TopLeft()) == p;
  }

  method SendScreen(fb: FrameBuffer, gate: Gate) returns (ghost screen: Option<Screen>)
    requires fb.Valid()
    modifies gate
    ensures gate.data == old(gate.data) + EncScreen(screen)
    ensures ScreenTells(screen, true, PictureOf(fb))
  {
    hide EncPixelFormat, EncDimension, ContentOf, ShowsRect, EncU8, Dimension.Area;
    gate.WriteUInt8(1);
    SendPixelFormat(fb.pf, gate);
    SendDimension(fb.dim, gate);
    ghost var pixels := SendFrameBuffer(fb, fb.dim.GetRect(), gate);
    WholeShown(pixels, fb.dim, fb.pf.BytesPerPixel(), fb.Content());
    screen := Some(Screen(fb.pf.(bigEndian := false), fb.dim, pixels));
    OrderIsNotSent(fb.pf, false);
  }

  method SendPatch(fb: FrameBuffer, rect: Rect, gate: Gate) returns (ghost patch: Patch)
    requires fb.Valid()
    modifies gate
    ensures gate.data == old(gate.data) + EncPatch(patch)
    ensures patch.rect == rect && ShowsRect(patch.pixels, rect, fb.pf.BytesPerPixel(), fb.Content())
  {
    hide EncRect, ShowsRect, Dimension.Area;
    SendRect(rect, gate);
    ghost var pixels := SendFrameBuffer(fb, rect, gate);
    patch := Patch(rect, pixels);
  }

  method SendChanged(fb: FrameBuffer, region: Region, gate: Gate) returns (ghost patches: seq<Patch>)
    requires fb.Valid()
    modifies gate
    ensures gate.data == old(gate.data) + EncChanged(patches)
    ensures ChangedTells(patches, region, fb.pf.BytesPerPixel(), fb.Content())
  {
    hide EncU32, EncPatch, ShowsRect, IsRectVector, GetRectVector, Dimension.Area, FrameBuffer.Content;
    var rects := GetRectVector(region);
    RectVectorLists(region);
    gate.WriteUInt32(|rects|);
    ghost var start := gate.data;
    patches := [];
    assert start + EncPatches([]) == start;
    for i := 0 to |rects|
      invariant |patches| == i && RectsOf(patches) == rects[..i]
      invariant AllShow(patches, fb.pf.BytesPerPixel(), fb.Content())
      invariant gate.data == start + EncPatches(patches)
    {
      ghost var patch := SendPatch(fb, rects[i], gate);
      assert (patches + [patch])[..i] == patches;
      patches := patches + [patch];
      assert RectsOf(patches) == rects[..i + 1];
    }
    assert rects[..|rects|] == rects;
  }

  method SendCopy(fb: FrameBuffer, c: UpdateContainer, gate: Gate) returns (ghost copy: Option<Copy>)
    requires fb.Valid()
    modifies gate
    ensures gate.data == old(gate.data) + EncCopy(copy)
    ensures CopyTells(copy, c, fb.pf.BytesPerPixel(), fb.Content())
  {
    hide EncU8, EncPoint, EncPatch, ShowsRect, IsRectVector, Dimension.Area, FrameBuffer.Content;
    copy := None;
    if c.copiedRegion == {} {
      gate.WriteUInt8(0);
      return;
    }
    gate.WriteUInt8(1);
    SendPoint(c.copySrc, gate);
    var rects := GetRectVector(c.copiedRegion);
    FirstCorner(rects, c.copiedRegion);
    ghost var patch := SendPatch(fb, rects[0], gate);
    copy := Some(Copy(c.copySrc, patch));
  }

  method SendShape(changed: bool, shape: Shape, gate: Gate)
    modifies gate
    ensures gate.data == old(gate.data) + EncShape(if changed then Some(shape) else None)
  {
    hide EncU8, EncPoint, EncDimension, EncShape;
    ghost var start := gate.data;
    gate.WriteUInt8(if changed then 1 else 0);
    if changed {
      SendDimension(shape.dim, gate);
      SendPoint(shape.hotSpot, gate);
      gate.WriteFully(shape.pixels);
      if |shape.mask| > 0 {
        gate.WriteFully(shape.mask);
      }
      ShapeWritten(start, gate.data, shape);
    } else {
      NoShapeWritten();
    }
  }

  lemma ShapeWritten(start: Bytes, after: Bytes, s: Shape)
    requires
      || after == start + EncU8(1) + EncDimension(s.dim) + EncPoint(s.hotSpot) + s.pixels + s.mask
      || (s.mask == [] && after == start + EncU8(1) + EncDimension(s.dim) + EncPoint(s.hotSpot) + s.pixels)
    ensures after == start + EncShape(Some(s))
  {
    hide EncU8, EncPoint, EncDimension;
    var a, b, c := EncU8(1), EncDimension(s.dim), EncPoint(s.hotSpot);
    assert start + a + b + c + s.pixels + s.mask == start + (a + (b + (c + (s.pixels + s.mask))));
  }

  lemma NoShapeWritten()
    ensures EncShape(None) == EncU8(0)
  {
  }

  /** The part of `extractReply` that writes the picture. */
  method SendPictures(fb: FrameBuffer, c: UpdateContainer, gate: Gate)
    returns (ghost screen: Option<Screen>, ghost video: seq<Rect>, ghost changed: seq<Patch>, ghost copy: Option<Copy>)
    requires fb.Valid()
    modifies gate
    ensures gate.data == old(gate.data) + EncScreen(screen) + EncRegion(video) + EncChanged(changed) + EncCopy(copy)
    ensures ScreenTells(screen, c.screenSizeChanged, PictureOf(fb)) && IsRectVector(video, c.videoRegion)
    ensures ChangedTells(changed, c.changedRegion, fb.pf.BytesPerPixel(), fb.Content())
    ensures CopyTells(copy, c, fb.pf.BytesPerPixel(), fb.Content())
  {
    hide EncScreen, EncRegion, EncChanged, EncCopy, EncU8, ScreenTells, ChangedTells, CopyTells,
         IsRectVector, FrameBuffer.Content, Dimension.Area;
    screen := None;
    if c.screenSizeChanged {
      screen := SendScreen(fb, gate);
    } else {
      gate.WriteUInt8(0);
      NoScreen(PictureOf(fb));
    }
    video := SendRegion(c.videoRegion, gate);
    changed := SendChanged(fb, c.changedRegion, gate);
    copy := SendCopy(fb, c, gate);
  }

  method SendCursorPos(changed: bool, pos: Point, gate: Gate)
    modifies gate
    ensures gate.data == old(gate.data) + EncCursorPos(changed, pos)
  {
    hide EncPoint, EncU8;
    gate.WriteUInt8(if changed then 1 else 0);
    SendPoint(pos, gate);
  }

  /** The part of `extractReply` that writes. */
  method SendReply(fb: FrameBuffer, c: UpdateContainer, shape: Shape, gate: Gate) returns (ghost m: Reply)
    requires fb.Valid()
    modifies gate
    ensures gate.data == old(gate.data) + EncReply(m)
    ensures Tells(m, c, PictureOf(fb), shape)
  {
    hide EncScreen, EncRegion, EncChanged, EncCopy, EncCursorPos, EncShape, EncReply, ScreenTells, ChangedTells,
         CopyTells, IsRectVector, FrameBuffer.Content, Dimension.Area;
    ghost var start := gate.data;
    ghost var screen, video, changed, copy := SendPictures(fb, c, gate);
    SendCursorPos(c.cursorPosChanged, c.cursorPos, gate);
    SendShape(c.cursorShapeChanged, shape, gate);
    m := Reply(screen, video, changed, copy, c.cursorPosChanged, c.cursorPos,
               if c.cursorShapeChanged then Some(shape) else None);
    ReplyWritten(start, m);
  }

  lemma ReplyWritten(start: Bytes, m: Reply)
    ensures start + EncScreen(m.screen) + EncRegion(m.video) + EncChanged(m.changed) + EncCopy(m.copy) +
              EncCursorPos(m.cursorPosChanged, m.cursorPos) + EncShape(m.shape)
         == start + EncReply(m)
  {
    hide EncScreen, EncRegion, EncChanged, EncCopy, EncCursorPos, EncShape;
  }

  lemma NoScreen(p: Picture)
    ensures EncScreen(None) == EncU8(0) && ScreenTells(None, false, p)
  {
  }

  // ---------- The server ----------

  function EncInit(s: Screen): Bytes {
    EncPixelFormat(s.pf) + (EncDimension(s.dim) + s.pixels)
  }

  function DecInit(bigEndian: bool, s: Bytes): Parsed<Screen> {
    var (pf, s) :- DecPixelFormat(bigEndian, s);
    var (dim, s) :- DecDimension(s);
    var (pixels, s) :- DecBytes(PayloadSize(dim, pf.BytesPerPixel()), s);
    Got(Screen(pf, dim, pixels), s)
  }

  lemma InitRoundTrip(bigEndian: bool, s: Screen, rest: Bytes)
    requires PixelFormatFits(s.pf) && PixelFormatAccepted(s.pf) && DimensionAccepted(s.dim)
    requires |s.pixels| == PayloadSize(s.dim, s.pf.BytesPerPixel())
    ensures DecInit(bigEndian, EncInit(s) + rest) == Got(s.(pf := s.pf.(bigEndian := bigEndian)), rest)
  {
    hide EncPixelFormat, DecPixelFormat, EncDimension, DecDimension, PayloadSize;
    var pf := s.pf.(bigEndian := bigEndian);
    var s2 := s.pixels + rest;
    var s1 := EncDimension(s.dim) + s2;
    assert EncInit(s) + rest == EncPixelFormat(s.pf) + s1;
    OrderIsNotSent(s.pf, bigEndian);
    PixelFormatRoundTrip(pf, s1);
    DimensionRoundTrip(s.dim, s2);
    BytesRoundTrip(s.pixels, rest);
  }

  /** A whole picture into a buffer of its own. */
  method ReadPicture(dim: Dimension, pf: PixelFormat, gate: Gate) returns (r: Result<Bytes>, fb: FrameBuffer)
    requires pf.IsValid()
    modifies gate
    ensures Reads(DecBytes(PayloadSize(dim, pf.BytesPerPixel()), old(gate.data)), r, gate.data)
    ensures fb.Valid() && fresh(fb) && fresh(fb.buffer) && fb.dim == dim && fb.pf == pf
    ensures r.Ok? ==> Fits(r.value, dim, pf.BytesPerPixel()) &&
                      fb.Content() == ContentOf(r.value, dim, pf.BytesPerPixel())
  {
    hide DecBytes, PayloadSize, Patched1, ContentOf, FrameBuffer.Content, Dimension.Area;
    fb := new FrameBuffer(dim, pf);
    ghost var junk := fb.Content();
    assert DimensionOf(dim.GetRect()) == dim;
    r := ReadFrameBuffer(fb, dim.GetRect(), gate);
    if r.Ok? {
      WholePicture(junk, dim, pf.BytesPerPixel(), r.value);
    }
  }

  /** What a buffer is like, apart from its pixels. */
  datatype Properties = Properties(dim: Dimension, pf: PixelFormat)

  function PropertiesOf(fb: FrameBuffer): Properties
    reads fb
  {
    Properties(fb.dim, fb.pf)
  }

  ghost predicate OneCopied(c: UpdateContainer) {
    c.copiedRegion == {} || IsRect(c.copiedRegion)
  }

  /** What an extraction reads and writes in the handler: keeper and backup, and
      the properties of the work buffer and of the display.  The display is as it
      is when its properties are applied; the report may be older. */
  datatype Snapshot = Snapshot(
    keeper: UpdateContainer,
    border: Rect,
    excluded: Region,
    absolute: Rect,
    picture: Picture,
    work: Properties,
    display: Properties)
  {
    ghost function Input(report: DriverReport): UpdateContainer {
      ToFilter(keeper, border, picture.dim.GetRect(), excluded, report)
    }

    ghost function Backup(): Properties {
      Properties(picture.dim, picture.pf)
    }

    /** The guard of the restart. */
    ghost predicate StartsOver(report: DriverReport) {
      report.propertiesChanged || work != Backup()
    }

    /** Whether the reply holds the whole picture.  A restart compares the backup
        with the old work buffer; only its pixel format is compared afterwards. */
    ghost predicate TellsPicture(report: DriverReport) {
      || keeper.screenSizeChanged
      || (StartsOver(report) && (report.sizeChanged || work.dim != picture.dim || display.pf != picture.pf))
    }

    /** The backup starts over as the display is, and nothing tells the other
        process. */
    ghost predicate Untold(report: DriverReport) {
      StartsOver(report) && !TellsPicture(report)
    }

    /** Not even that it has another size now. */
    ghost predicate UntoldSize(report: DriverReport) {
      Untold(report) && display.dim != picture.dim
    }

    /** The reply holds every pixel that the extraction can change: the filter
        moves nothing outside the first copied rectangle, or the reply holds all
        pixels anyway. */
    ghost predicate Covers(report: DriverReport) {
      || StartsOver(report) || TellsPicture(report) || !absolute.IsEmpty()
      || OnlyFirstMoves(GetRectVector(Input(report).copiedRegion), Input(report).copySrc,
                        Pixels(picture.dim.GetRect()))
    }

    /** The container that goes out. */
    ghost function Delivered(report: DriverReport, pass: Pass): UpdateContainer {
      if pass.ending == Restarted then
        Input(report).(screenSizeChanged := TellsPicture(report), changedRegion := {}, copiedRegion := {},
                       cursorPos := report.cursorPos)
      else Presented(pass.filtered, absolute, work.dim.GetRect(), report.cursorPos)
    }
  }

  /** What happened in an extraction: how it ended, what the filter made of its
      container, and what work buffer and display show afterwards. */
  datatype Pass = Pass(ending: Ending, filtered: UpdateContainer, screen: Frame, shown: Frame)

  /** All pixels have the bytes that the format says. */
  ghost predicate IsFull(p: Picture) {
    p.pf.BytesPerPixel() > 0 && forall q :: q in p.frame ==> |p.frame[q]| == p.pf.BytesPerPixel()
  }

  /** Every buffer shows such a picture. */
  lemma PictureIsFull(fb: FrameBuffer)
    requires fb.Valid()
    ensures IsFull(PictureOf(fb))
  {
    hide Dimension.Area;
    var bpp := fb.pf.BytesPerPixel();
    forall q | q in fb.Content() ensures |fb.Content()[q]| == bpp {
      IndexInside(fb.dim, bpp, q);
      PixelIsFull(fb.buffer[..], bpp, q.y * fb.dim.width + q.x);
    }
  }

  lemma PixelIsFull(s: Bytes, bpp: nat, k: nat)
    requires k * bpp <= (k + 1) * bpp <= |s|
    ensures |PixelAt(s, bpp, k)| == bpp
  {
    assert (k + 1) * bpp == k * bpp + bpp;
  }

  ghost function SnapshotOf(h: UpdateHandler): Snapshot
    requires h.Valid()
    reads h, h.keeper, h.driver, h.driver.screen, h.driver.desktop, h.filter, h.backup, h.filter.grabOptimizator,
          h.backup.buffer
  {
    Snapshot(h.keeper.container, h.keeper.borderRect, h.keeper.excludedRegion, h.absoluteRect, PictureOf(h.backup),
             PropertiesOf(h.driver.screen), PropertiesOf(h.driver.desktop))
  }

  /** An extraction that does not throw: the filter ran over what the keeper had,
      or the backup started over. */
  ghost predicate Extracts(s: Snapshot, report: DriverReport, pass: Pass, c: UpdateContainer, s': Snapshot) {
    && pass.ending != Thrown && (pass.ending == Restarted <==> s.StartsOver(report))
    && c == s.Delivered(report, pass)
    && s'.keeper == AddCopy(s.keeper, s.border, report.copyRect, report.copySrc).Clear()
    && s'.excluded == s.excluded && s'.display == s.display
    && (pass.ending == Restarted ==>
          s'.absolute == s'.border == s'.picture.dim.GetRect() && s'.Backup() == s'.work == s.display)
    && (pass.ending != Restarted ==>
          && s'.border == s.border && s'.absolute.IsEmpty() && s'.Backup() == s.Backup() && s'.work == s.work
          && Filters(s, report, pass, s'))
  }

  /** The filter's part of it. */
  ghost predicate Filters(s: Snapshot, report: DriverReport, pass: Pass, s': Snapshot) {
    && pass.screen.Keys == s.picture.frame.Keys
    && PassedFilter(s.Input(report), pass.filtered, GetRectVector(s.Input(report).copiedRegion),
                    if pass.ending == Normal then Done else GrabFailed,
                    s.picture.frame, pass.screen, s'.picture.frame, pass.shown)
  }

  lemma PropertiesTold(s: Snapshot, report: DriverReport, pass: Pass, c: UpdateContainer, s': Snapshot)
    requires Extracts(s, report, pass, c, s')
    ensures c.screenSizeChanged <==> s.TellsPicture(report)
    ensures !c.screenSizeChanged ==> s'.picture.pf == s.picture.pf
    ensures !c.screenSizeChanged ==> (s'.picture.dim != s.picture.dim <==> s.UntoldSize(report))
    ensures s.Untold(report) <==> pass.ending == Restarted && !c.screenSizeChanged
    ensures pass.ending == Restarted <==> s.StartsOver(report)
    ensures pass.ending == Restarted ==> s'.absolute == s'.picture.dim.GetRect() && c.Dirty() == {}
  {
    hide AddCopy, MovedAll, Patched;
    InputFlags(s, report);
  }

  /** What the filter changed is in its container or was moved. */
  lemma FilterChanges(s: Snapshot, report: DriverReport, pass: Pass, s': Snapshot)
    requires Filters(s, report, pass, s') && pass.ending in {Normal, Unsynchronized}
    requires OnlyFirstMoves(GetRectVector(s.Input(report).copiedRegion), s.Input(report).copySrc, s.picture.frame.Keys)
    ensures ChangedOnlyIn(s.picture.frame, s'.picture.frame,
                          Sent(pass.filtered, GetRectVector(s.Input(report).copiedRegion)))
  {
    hide MovedAll, OnlyFirstMoves, Sent, AddCopy, ToFilter, ChangedOnlyIn, IsRectVector;
    var input := s.Input(report);
    var rects := GetRectVector(input.copiedRegion);
    var moved := MovedAll(s.picture.frame, rects, input.copySrc);
    if pass.ending == Normal {
      ChangesAreSent(pass.filtered, rects, input.copySrc, s.picture.frame, s'.picture.frame, pass.screen);
    } else {
      PatchedWithItself(moved, pass.filtered.changedRegion);
      ChangesAreSent(pass.filtered, rects, input.copySrc, s.picture.frame, s'.picture.frame, moved);
    }
  }

  lemma PatchedWithItself(f: Frame, region: Region)
    ensures f == Patched(f, region, f)
  {
  }

  class UpdateHandlerServer {
    var handler: UpdateHandler
    var oldPf: PixelFormat

    constructor (handler: UpdateHandler)
      ensures this.handler == handler && oldPf == NO_FORMAT
    {
      this.handler, oldPf := handler, NO_FORMAT;
    }

    ghost predicate Valid()
      reads this, handler, handler.keeper, handler.driver, handler.driver.screen, handler.driver.desktop,
            handler.filter, handler.backup, handler.filter.grabOptimizator
    {
      handler.Valid() && oldPf == handler.backup.pf
    }

    /** `serverInit`: the backup starts as the client's picture. */
    method ServerInit(gate: Gate) returns (r: Result<Screen>)
      requires handler.Valid()
      modifies this`oldPf, handler.backup, gate
      ensures Reads(DecInit(old(oldPf).bigEndian, old(gate.data)), r, gate.data)
      ensures handler == old(handler) && handler.backup == old(handler.backup)
      ensures r.Ok? ==> fresh(handler.backup.buffer)
      ensures r.Ok? ==>
                && Valid() && handler.backup.dim == r.value.dim && handler.backup.pf == r.value.pf
                && Fits(r.value.pixels, r.value.dim, r.value.pf.BytesPerPixel())
                && handler.backup.Content() == ContentOf(r.value.pixels, r.value.dim, r.value.pf.BytesPerPixel())
    {
      hide DecPixelFormat, DecDimension, DecBytes, PayloadSize, Patched1, ContentOf, FrameBuffer.Content,
           Dimension.Area, GrabOptimizator.Valid;
      var pf :- ReadPixelFormat(oldPf, gate);
      oldPf := pf;
      var dim :- ReadDimension(gate);
      var pixels, fb := ReadPicture(dim, pf, gate);
      if pixels.Err? {
        return Err(pixels.error);
      }
      handler.InitFrameBuffer(fb);
      r := Ok(Screen(pf, dim, pixels.value));
    }

    /** `extractReply`.  Nothing is sent when the extraction throws. */
    method ExtractReply(report: DriverReport, shape: Shape, gate: Gate)
      returns (ending: Ending, ghost pass: Pass, ghost m: Reply, ghost c: UpdateContainer)
      requires Valid()
      modifies this`oldPf, handler.keeper`container, handler.keeper`borderRect, handler`absoluteRect,
               handler`fullUpdateRequested, handler.backup, handler.backup.buffer, handler.driver`screen,
               handler.driver.screen.buffer, handler.filter.grabOptimizator, gate
      ensures handler == old(handler)
      ensures handler.backup.buffer == old(handler.backup.buffer) || fresh(handler.backup.buffer)
      ensures handler.driver.screen == old(handler.driver.screen) ||
              (fresh(handler.driver.screen) && fresh(handler.driver.screen.buffer))
      ensures ending == Thrown ==> gate.data == old(gate.data)
      ensures ending != Thrown ==>
                && Valid() && handler.backup == old(handler.backup)
                && gate.data == old(gate.data) + EncReply(m) && Tells(m, c, PictureOf(handler.backup), shape)
                && pass.ending == ending
                && pass.shown == handler.driver.desktop.Content() == old(handler.driver.desktop.Content())
                && Extracts(old(SnapshotOf(handler)), report, pass, c, SnapshotOf(handler))
    {
      hide EncReply, Tells, FrameBuffer.Content, Dimension.Area, PassedFilter, IsRectVector, MovedAll,
           AddCopy, ToFilter, Delivers, Pixels, Checked, GrabOptimizator.Valid, FrameBuffer.Valid, Extracts,
           GetRectVector;
      var out;
      ghost var rects, filtered;
      ghost var s, screenRect := SnapshotOf(handler), handler.driver.screen.dim.GetRect();
      m := NO_REPLY;
      out, ending, rects, filtered := handler.Extract(report);
      c, pass := out, Pass(ending, filtered, map[], map[]);
      if ending == Thrown {
        return;
      }
      pass := pass.(screen := handler.driver.screen.Content(), shown := handler.driver.desktop.Content());
      ExtractionHappened(s, report, pass, out, screenRect, rects, SnapshotOf(handler));
      c, m := SendExtracted(out, shape, gate);
    }

    /** A new pixel format counts as a new screen size. */
    method SendExtracted(out: UpdateContainer, shape: Shape, gate: Gate)
      returns (ghost c: UpdateContainer, ghost m: Reply)
      requires handler.Valid()
      modifies this`oldPf, gate
      ensures oldPf == handler.backup.pf
      ensures gate.data == old(gate.data) + EncReply(m) && Tells(m, c, PictureOf(handler.backup), shape)
      ensures c == out.(screenSizeChanged := out.screenSizeChanged || old(oldPf) != handler.backup.pf)
    {
      hide EncReply, Tells, FrameBuffer.Content, Dimension.Area;
      var fb := handler.backup;
      var newPf := fb.pf;
      var told := out;
      if oldPf != newPf {
        told := told.(screenSizeChanged := true);
        oldPf := newPf;
      }
      c := told;
      m := SendReply(fb, told, shape, gate);
    }
  }

  lemma ExtractionHappened(s: Snapshot, report: DriverReport, pass: Pass, c: UpdateContainer, screenRect: Rect,
                           rects: seq<Rect>, s': Snapshot)
    requires s'.keeper == AddCopy(s.keeper, s.border, report.copyRect, report.copySrc).Clear() &&
             s'.excluded == s.excluded
    requires pass.ending != Thrown && (pass.ending == Restarted <==> s.StartsOver(report)) && s'.display == s.display
    requires screenRect == s.work.dim.GetRect()
    requires Delivers(s.Input(report), pass.filtered, s.absolute, screenRect, report, s.picture.dim, s.work.dim,
                      pass.ending, c)
    requires pass.ending == Restarted ==>
               s'.absolute == s'.border == s'.picture.dim.GetRect() && s'.Backup() == s'.work == s.display
    requires pass.ending != Restarted ==>
               && s'.Backup() == s.Backup() && s'.border == s.border && s'.work == s.work && s'.absolute.IsEmpty()
               && pass.screen.Keys == s.picture.frame.Keys
               && PassedFilter(s.Input(report), pass.filtered, rects,
                               if pass.ending == Normal then Done else GrabFailed,
                               s.picture.frame, pass.screen, s'.picture.frame, pass.shown)
    ensures Extracts(s, report, pass, c.(screenSizeChanged := c.screenSizeChanged || s.picture.pf != s'.picture.pf), s')
  {
    hide AddCopy, ToFilter, MovedAll, Synchronized, Shows, ChangedOnlyIn;
    InputFlags(s, report);
  }

  lemma InputFlags(s: Snapshot, report: DriverReport)
    ensures s.Input(report).screenSizeChanged == s.keeper.screenSizeChanged
  {
  }
}
