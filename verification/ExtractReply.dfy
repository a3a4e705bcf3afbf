/** The reply to EXTRACT_REQ as a message: its encoding, its decoding, and what
    it does to the receiver's picture.

    The lengths of pixel payloads are not sent.  The receiver computes them from
    its own pixel format, after the format in the message if there is one. */
module ExtractReplies {
  import opened Geometry
  import opened Frames
  import opened FrameBuffers
  import opened Codec
  import opened Options

  datatype Screen = Screen(pf: PixelFormat, dim: Dimension, pixels: Bytes)

  datatype Patch = Patch(rect: Rect, pixels: Bytes)

  datatype Copy = Copy(src: Point, patch: Patch)

  datatype Shape = Shape(dim: Dimension, hotSpot: Point, pixels: Bytes, mask: Bytes)

  datatype Reply = Reply(
    screen: Option<Screen>,
    video: seq<Rect>,
    changed: seq<Patch>,
    copy: Option<Copy>,
    cursorPosChanged: bool,
    cursorPos: Point,
    shape: Option<Shape>)

  function DimensionOf(r: Rect): Dimension {
    Dimension(r.Width(), r.Height())
  }

  function PayloadSize(dim: Dimension, bpp: nat): nat {
    AreaNotNegative(dim, bpp);
    dim.Area() * bpp
  }

  function MaskSize(dim: Dimension): nat {
    if dim.IsEmpty() then 0 else
    MulMonotone(0, (dim.width + 7) / 8, dim.height);
    (dim.width + 7) / 8 * dim.height
  }

  function Flag(b: bool): Bytes {
    EncU8(if b then 1 else 0)
  }

  // ---------- Encoding ----------

  function EncScreen(screen: Option<Screen>): Bytes {
    match screen
    case None => Flag(false)
    case Some(s) => Flag(true) + (EncPixelFormat(s.pf) + (EncDimension(s.dim) + s.pixels))
  }

  function EncPatch(patch: Patch): Bytes {
    EncRect(patch.rect) + patch.pixels
  }

  function EncPatches(patches: seq<Patch>): Bytes {
    if patches == [] then [] else EncPatches(patches[..|patches| - 1]) + EncPatch(patches[|patches| - 1])
  }

  function EncChanged(patches: seq<Patch>): Bytes {
    EncU32(|patches|) + EncPatches(patches)
  }

  function EncCopy(copy: Option<Copy>): Bytes {
    match copy
    case None => Flag(false)
    case Some(c) => Flag(true) + (EncPoint(c.src) + EncPatch(c.patch))
  }

  function EncShape(shape: Option<Shape>): Bytes {
    match shape
    case None => Flag(false)
    case Some(s) => Flag(true) + (EncDimension(s.dim) + (EncPoint(s.hotSpot) + (s.pixels + s.mask)))
  }

  function EncCursorPos(changed: bool, pos: Point): Bytes {
    Flag(changed) + EncPoint(pos)
  }

  function EncReply(m: Reply): Bytes {
    EncScreen(m.screen) + (EncRegion(m.video) + (EncChanged(m.changed) + (EncCopy(m.copy) +
    (EncCursorPos(m.cursorPosChanged, m.cursorPos) + EncShape(m.shape)))))
  }

  // ---------- Decoding ----------

  function DecScreen(s: Bytes): Parsed<Option<Screen>> {
    var (flag, s) :- DecU8(s);
    if flag == 0 then Got(None, s)
    else
      var (pf, s) :- DecPixelFormat(false, s);
      var (dim, s) :- DecDimension(s);
      var (pixels, s) :- DecBytes(PayloadSize(dim, pf.BytesPerPixel()), s);
      Got(Some(Screen(pf, dim, pixels)), s)
  }

  function DecPatch(bpp: nat, s: Bytes): Parsed<Patch> {
    var (rect, s) :- DecRect(s);
    var (pixels, s) :- DecBytes(PayloadSize(DimensionOf(rect), bpp), s);
    Got(Patch(rect, pixels), s)
  }

  function DecPatches(n: nat, bpp: nat, s: Bytes): Parsed<seq<Patch>> {
    if n == 0 then Got([], s)
    else
      var (patch, s) :- DecPatch(bpp, s);
      var (rest, s) :- DecPatches(n - 1, bpp, s);
      Got([patch] + rest, s)
  }

  function DecChanged(bpp: nat, s: Bytes): Parsed<seq<Patch>> {
    var (n, s) :- DecU32(s);
    DecPatches(n, bpp, s)
  }

  function DecCopy(bpp: nat, s: Bytes): Parsed<Option<Copy>> {
    var (flag, s) :- DecU8(s);
    if flag == 0 then Got(None, s)
    else
      var (src, s) :- DecPoint(s);
      var (patch, s) :- DecPatch(bpp, s);
      Got(Some(Copy(src, patch)), s)
  }

  function DecShape(bpp: nat, s: Bytes): Parsed<Option<Shape>> {
    var (flag, s) :- DecU8(s);
    if flag == 0 then Got(None, s)
    else
      var (dim, s) :- DecDimension(s);
      var (hotSpot, s) :- DecPoint(s);
      var (pixels, s) :- DecBytes(PayloadSize(dim, bpp), s);
      var (mask, s) :- DecBytes(MaskSize(dim), s);
      Got(Some(Shape(dim, hotSpot, pixels, mask)), s)
  }

  function DecCursorPos(s: Bytes): Parsed<(bool, Point)> {
    var (flag, s) :- DecU8(s);
    var (pos, s) :- DecPoint(s);
    Got((flag != 0, pos), s)
  }

  function FormatAfter(pf: PixelFormat, screen: Option<Screen>): PixelFormat {
    if screen.Some? then screen.value.pf else pf
  }

  /** What comes after the picture. */
  function DecUpdate(screen: Option<Screen>, bpp: nat, s: Bytes): Parsed<Reply> {
    var (video, s) :- DecRegion(s);
    var (changed, s) :- DecChanged(bpp, s);
    var (copy, s) :- DecCopy(bpp, s);
    var (cursor, s) :- DecCursorPos(s);
    var (shape, s) :- DecShape(bpp, s);
    Got(Reply(screen, video, changed, copy, cursor.0, cursor.1, shape), s)
  }

  function DecReply(pf: PixelFormat, s: Bytes): Parsed<Reply> {
    var (screen, s) :- DecScreen(s);
    DecUpdate(screen, FormatAfter(pf, screen).BytesPerPixel(), s)
  }

  // ---------- Round trip ----------

  predicate PointFits(p: Point) {
    IsInt32(p.x) && IsInt32(p.y)
  }

  predicate ScreenFits(s: Screen) {
    && PixelFormatFits(s.pf) && PixelFormatAccepted(s.pf) && DimensionAccepted(s.dim)
    && |s.pixels| == PayloadSize(s.dim, s.pf.BytesPerPixel())
  }

  predicate PatchFits(bpp: nat, patch: Patch) {
    RectAccepted(patch.rect) && |patch.pixels| == PayloadSize(DimensionOf(patch.rect), bpp)
  }

  predicate PatchesFit(bpp: nat, patches: seq<Patch>) {
    |patches| < TWO32 && forall i :: 0 <= i < |patches| ==> PatchFits(bpp, patches[i])
  }

  predicate ShapeFits(bpp: nat, s: Shape) {
    && DimensionAccepted(s.dim) && PointFits(s.hotSpot)
    && |s.pixels| == PayloadSize(s.dim, bpp) && |s.mask| == MaskSize(s.dim)
  }

  /** What the sender must see to: valid rectangles and payloads of the
      announced sizes. */
  predicate ReplyFits(pf: PixelFormat, m: Reply) {
    var bpp := FormatAfter(pf, m.screen).BytesPerPixel();
    && (m.screen.Some? ==> ScreenFits(m.screen.value))
    && RectsAccepted(m.video) && PatchesFit(bpp, m.changed)
    && (m.copy.Some? ==> PointFits(m.copy.value.src) && PatchFits(bpp, m.copy.value.patch))
    && PointFits(m.cursorPos)
    && (m.shape.Some? ==> ShapeFits(bpp, m.shape.value))
  }

  /** The byte order of the pixel format is not sent. */
  function ScreenAsRead(screen: Option<Screen>): Option<Screen> {
    match screen
    case None => None
    case Some(s) => Some(s.(pf := s.pf.(bigEndian := false)))
  }

  function AsRead(m: Reply): Reply {
    m.(screen := ScreenAsRead(m.screen))
  }

  lemma FlagRoundTrip(b: bool, rest: Bytes)
    ensures DecU8(Flag(b) + rest) == Got(if b then 1 else 0, rest)
  {
    U8RoundTrip(if b then 1 else 0, rest);
  }

  lemma ScreenRoundTrip(screen: Option<Screen>, rest: Bytes)
    requires screen.Some? ==> ScreenFits(screen.value)
    ensures DecScreen(EncScreen(screen) + rest) == Got(ScreenAsRead(screen), rest)
  {
    hide Flag, DecU8, EncPixelFormat, DecPixelFormat, EncDimension, DecDimension, PayloadSize;
    match screen
    case None => FlagRoundTrip(false, rest);
    case Some(s) =>
      var s2 := s.pixels + rest;
      var s1 := EncDimension(s.dim) + s2;
      var s0 := EncPixelFormat(s.pf) + s1;
      assert EncScreen(screen) + rest == Flag(true) + s0;
      FlagRoundTrip(true, s0);
      OrderIsNotSent(s.pf, false);
      PixelFormatRoundTrip(s.pf.(bigEndian := false), s1);
      DimensionRoundTrip(s.dim, s2);
      BytesRoundTrip(s.pixels, rest);
  }

  lemma PatchRoundTrip(bpp: nat, patch: Patch, rest: Bytes)
    requires PatchFits(bpp, patch)
    ensures DecPatch(bpp, EncPatch(patch) + rest) == Got(patch, rest)
  {
    hide EncRect, DecRect, PayloadSize;
    assert EncPatch(patch) + rest == EncRect(patch.rect) + (patch.pixels + rest);
    RectRoundTrip(patch.rect, patch.pixels + rest);
    BytesRoundTrip(patch.pixels, rest);
  }

  lemma {:induction false} EncPatchesFirst(patches: seq<Patch>)
    requires patches != []
    ensures EncPatches(patches) == EncPatch(patches[0]) + EncPatches(patches[1..])
  {
    hide EncPatch;
    if |patches| == 1 {
      assert patches[..0] == [] && patches[1..] == [];
    } else {
      var m := |patches| - 1;
      var first, middle, last := EncPatch(patches[0]), EncPatches(patches[1..m]), EncPatch(patches[m]);
      EncPatchesFirst(patches[..m]);
      assert patches[..m][1..] == patches[1..m] && patches[1..][..m - 1] == patches[1..m];
      assert first + middle + last == first + (middle + last);
    }
  }

  lemma {:induction false} PatchesRoundTrip(bpp: nat, patches: seq<Patch>, rest: Bytes)
    requires PatchesFit(bpp, patches)
    ensures DecPatches(|patches|, bpp, EncPatches(patches) + rest) == Got(patches, rest)
  {
    hide EncPatch, DecPatch, PatchFits;
    if patches != [] {
      EncPatchesFirst(patches);
      var tail := EncPatches(patches[1..]) + rest;
      assert EncPatches(patches) + rest == EncPatch(patches[0]) + tail;
      PatchRoundTrip(bpp, patches[0], tail);
      PatchesRoundTrip(bpp, patches[1..], rest);
      assert [patches[0]] + patches[1..] == patches;
    } else {
      assert EncPatches(patches) + rest == rest;
    }
  }

  lemma ChangedRoundTrip(bpp: nat, patches: seq<Patch>, rest: Bytes)
    requires PatchesFit(bpp, patches)
    ensures DecChanged(bpp, EncChanged(patches) + rest) == Got(patches, rest)
  {
    hide EncU32, DecU32, EncPatches, DecPatches, PatchFits;
    assert EncChanged(patches) + rest == EncU32(|patches|) + (EncPatches(patches) + rest);
    U32RoundTrip(|patches|, EncPatches(patches) + rest);
    PatchesRoundTrip(bpp, patches, rest);
  }

  lemma CopyRoundTrip(bpp: nat, copy: Option<Copy>, rest: Bytes)
    requires copy.Some? ==> PointFits(copy.value.src) && PatchFits(bpp, copy.value.patch)
    ensures DecCopy(bpp, EncCopy(copy) + rest) == Got(copy, rest)
  {
    hide Flag, DecU8, EncPoint, DecPoint, EncPatch, DecPatch, PatchFits;
    match copy
    case None => FlagRoundTrip(false, rest);
    case Some(c) =>
      var s1 := EncPatch(c.patch) + rest;
      var s0 := EncPoint(c.src) + s1;
      assert EncCopy(copy) + rest == Flag(true) + s0;
      FlagRoundTrip(true, s0);
      PointRoundTrip(c.src, s1);
      PatchRoundTrip(bpp, c.patch, rest);
  }

  lemma ShapeRoundTrip(bpp: nat, shape: Option<Shape>, rest: Bytes)
    requires shape.Some? ==> ShapeFits(bpp, shape.value)
    ensures DecShape(bpp, EncShape(shape) + rest) == Got(shape, rest)
  {
    hide Flag, DecU8, EncPoint, DecPoint, EncDimension, DecDimension, PayloadSize, MaskSize;
    match shape
    case None => FlagRoundTrip(false, rest);
    case Some(s) =>
      var s3 := s.mask + rest;
      var s2 := s.pixels + s3;
      var s1 := EncPoint(s.hotSpot) + s2;
      var s0 := EncDimension(s.dim) + s1;
      assert EncShape(shape) + rest == Flag(true) + s0;
      FlagRoundTrip(true, s0);
      DimensionRoundTrip(s.dim, s1);
      PointRoundTrip(s.hotSpot, s2);
      BytesRoundTrip(s.pixels, s3);
      BytesRoundTrip(s.mask, rest);
  }

  lemma CursorPosRoundTrip(changed: bool, pos: Point, rest: Bytes)
    requires PointFits(pos)
    ensures DecCursorPos(EncCursorPos(changed, pos) + rest) == Got((changed, pos), rest)
  {
    hide Flag, DecU8, EncPoint, DecPoint;
    assert EncCursorPos(changed, pos) + rest == Flag(changed) + (EncPoint(pos) + rest);
    FlagRoundTrip(changed, EncPoint(pos) + rest);
    PointRoundTrip(pos, rest);
  }

  /** The reply delimits itself: whatever follows it stays unread.  A picture
      comes back in the receiver's byte order. */
  lemma ReplyRoundTrip(pf: PixelFormat, m: Reply, rest: Bytes)
    requires ReplyFits(pf, m)
    ensures DecReply(pf, EncReply(m) + rest) == Got(AsRead(m), rest)
  {
    hide EncScreen, DecScreen, EncRegion, DecRegion, EncChanged, DecChanged, EncCopy, DecCopy, EncCursorPos,
         DecCursorPos, EncShape, DecShape, ScreenFits, PatchesFit, PatchFits, ShapeFits;
    var bpp := FormatAfter(pf, m.screen).BytesPerPixel();
    var s4 := EncShape(m.shape) + rest;
    var s3 := EncCursorPos(m.cursorPosChanged, m.cursorPos) + s4;
    var s2 := EncCopy(m.copy) + s3;
    var s1 := EncChanged(m.changed) + s2;
    var s0 := EncRegion(m.video) + s1;
    assert EncReply(m) + rest == EncScreen(m.screen) + s0;
    ScreenRoundTrip(m.screen, s0);
    RegionRoundTrip(m.video, s1);
    ChangedRoundTrip(bpp, m.changed, s2);
    CopyRoundTrip(bpp, m.copy, s3);
    CursorPosRoundTrip(m.cursorPosChanged, m.cursorPos, s4);
    ShapeRoundTrip(bpp, m.shape, rest);
  }
}
