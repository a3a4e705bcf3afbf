/** The byte formats between the two desktop processes
    (desktop-ipc/DesktopServerProto.cpp, io-lib/DataOutputStream.cpp,
    io-lib/DataInputStream.cpp): encoders, decoders and their round trips.

    All numbers are big-endian and are cut to their width when written.  Text is
    the byte string that follows its length. */
module Codec {
  import opened Geometry
  import opened Frames

  datatype Error =
    | Blocked            // the stream has no more bytes yet
    | WrongPixelFormat
    | WrongRectangle
    | WrongDimension
    | UnknownCode

  /** A decoded value and the bytes that follow it. */
  datatype Parsed<+T> = Got(value: T, rest: Bytes) | Failed(error: Error) {
    predicate IsFailure() {
      Failed?
    }

    function PropagateFailure<U>(): Parsed<U>
      requires Failed?
    {
      Failed(error)
    }

    function Extract(): (T, Bytes)
      requires Got?
    {
      (value, rest)
    }
  }

  const TWO16 := 0x1_0000
  const TWO32 := 0x1_0000_0000

  // ---------- Numbers ----------

  function EncU8(x: int): (s: Bytes)
    ensures |s| == 1
  {
    [(x % 256) as byte]
  }

  function EncU16(x: int): (s: Bytes)
    ensures |s| == 2
  {
    [(x % TWO16 / 256) as byte, (x % 256) as byte]
  }

  function EncU32(x: int): (s: Bytes)
    ensures |s| == 4
  {
    EncU16(x % TWO32 / TWO16) + EncU16(x % TWO16)
  }

  function EncU64(x: int): (s: Bytes)
    ensures |s| == 8
  {
    EncU32(x / TWO32) + EncU32(x % TWO32)
  }

  function EncI32(x: int): (s: Bytes)
    ensures |s| == 4
  {
    EncU32(x)
  }

  function DecU8(s: Bytes): Parsed<int> {
    if |s| < 1 then Failed(Blocked) else Got(s[0] as int, s[1..])
  }

  function DecU16(s: Bytes): Parsed<int> {
    if |s| < 2 then Failed(Blocked) else Got(s[0] as int * 256 + s[1] as int, s[2..])
  }

  function DecU32(s: Bytes): Parsed<int> {
    if |s| < 4 then Failed(Blocked)
    else Got(DecU16(s).value * TWO16 + DecU16(s[2..]).value, s[4..])
  }

  function DecU64(s: Bytes): Parsed<int> {
    if |s| < 8 then Failed(Blocked)
    else Got(DecU32(s).value * TWO32 + DecU32(s[4..]).value, s[8..])
  }

  /** Two's complement. */
  function DecI32(s: Bytes): Parsed<int> {
    var (x, r) :- DecU32(s);
    Got(if x < TWO32 / 2 then x else x - TWO32, r)
  }

  lemma U8RoundTrip(x: int, rest: Bytes)
    ensures DecU8(EncU8(x) + rest) == Got(x % 256, rest)
  {
  }

  lemma LowByte(k: int, b: int)
    requires 0 <= b < 256
    ensures (256 * k + b) % 256 == b
  {
  }

  /** Base 256: the high byte, the low one, and nothing else. */
  lemma HighAndLow(x: int)
    ensures 0 <= x % TWO16 / 256 < 256 && x % TWO16 / 256 * 256 + x % 256 == x % TWO16
  {
    var q, y := x / TWO16, x % TWO16;
    var a, b := y / 256, y % 256;
    assert x == TWO16 * q + y && y == 256 * a + b;
    assert x % 256 == b by {
      LowByte(256 * q + a, b);
      assert x == 256 * (256 * q + a) + b;
    }
    assert a < 256;
  }

  lemma U16RoundTrip(x: int, rest: Bytes)
    ensures DecU16(EncU16(x) + rest) == Got(x % TWO16, rest)
  {
    HighAndLow(x);
    var s := EncU16(x) + rest;
    assert s[0] == EncU16(x)[0] && s[1] == EncU16(x)[1] && s[2..] == rest;
  }

  lemma HighAndLowHalf(x: int)
    ensures 0 <= x % TWO32 / TWO16 < TWO16 && x % TWO32 / TWO16 * TWO16 + x % TWO16 == x % TWO32
  {
  }

  lemma SmallRemainder(x: int, n: int)
    requires 0 <= x < n
    ensures x % n == x
  {
  }

  lemma U32RoundTrip(x: int, rest: Bytes)
    ensures DecU32(EncU32(x) + rest) == Got(x % TWO32, rest)
  {
    hide EncU16, DecU16;
    var hi, lo := x % TWO32 / TWO16, x % TWO16;
    var s := EncU32(x) + rest;
    assert s == EncU16(hi) + (EncU16(lo) + rest);
    assert s[2..] == EncU16(lo) + rest && s[4..] == rest;
    U16RoundTrip(hi, EncU16(lo) + rest);
    U16RoundTrip(lo, rest);
    HighAndLowHalf(x);
    SmallRemainder(hi, TWO16);
    SmallRemainder(lo, TWO16);
  }

  /** The byte that is sent first weighs most. */
  lemma NumbersAreBigEndian(x: int)
    ensures var s := EncU16(x); s[0] as int * 256 + s[1] as int == x % TWO16
    ensures var s := EncU32(x);
            (s[0] as int * 256 + s[1] as int) * TWO16 + (s[2] as int * 256 + s[3] as int) == x % TWO32
    ensures EncU64(x) == EncU32(x / TWO32) + EncU32(x % TWO32) && EncI32(x) == EncU32(x)
  {
    hide EncU16, EncU32;
    U16RoundTrip(x, []);
    U32RoundTrip(x, []);
    assert EncU16(x) + [] == EncU16(x) && EncU32(x) + [] == EncU32(x);
  }

  lemma U64RoundTrip(x: int, rest: Bytes)
    requires 0 <= x < TWO32 * TWO32
    ensures DecU64(EncU64(x) + rest) == Got(x, rest)
  {
    hide EncU32, DecU32;
    var hi, lo := x / TWO32, x % TWO32;
    var s := EncU64(x) + rest;
    assert s == EncU32(hi) + (EncU32(lo) + rest);
    assert s[4..] == EncU32(lo) + rest && s[8..] == rest;
    U32RoundTrip(hi, EncU32(lo) + rest);
    U32RoundTrip(lo, rest);
  }

  predicate IsInt32(x: int) {
    -(TWO32 / 2) <= x < TWO32 / 2
  }

  lemma I32RoundTrip(x: int, rest: Bytes)
    requires IsInt32(x)
    ensures DecI32(EncI32(x) + rest) == Got(x, rest)
  {
    hide EncU32, DecU32;
    U32RoundTrip(x, rest);
  }

  // ---------- Pixel formats, dimensions, points, rectangles ----------

  predicate IsUInt16(x: int) {
    0 <= x < TWO16
  }

  predicate PixelFormatFits(pf: PixelFormat) {
    && IsUInt16(pf.bitsPerPixel) && IsUInt16(pf.colorDepth)
    && IsUInt16(pf.redMax) && IsUInt16(pf.greenMax) && IsUInt16(pf.blueMax)
    && IsUInt16(pf.redShift) && IsUInt16(pf.greenShift) && IsUInt16(pf.blueShift)
  }

  /** `checkPixelFormat` */
  predicate PixelFormatAccepted(pf: PixelFormat) {
    (pf.bitsPerPixel == 16 || pf.bitsPerPixel == 32) && pf.colorDepth <= pf.bitsPerPixel
  }

  /** `checkRectangle` */
  predicate RectAccepted(r: Rect) {
    && -32000 <= r.left <= 32000 && -32000 <= r.top <= 32000
    && -32000 <= r.right <= 32000 && -32000 <= r.bottom <= 32000
    && r.IsValid()
  }

  /** `checkDimension` */
  predicate DimensionAccepted(dim: Dimension) {
    -64000 <= dim.width <= 64000 && -64000 <= dim.height <= 64000
  }

  /** Eight of the nine fields are sent; the byte order is not. */
  function EncPixelFormat(pf: PixelFormat): Bytes {
    EncU16(pf.bitsPerPixel) + (EncU16(pf.colorDepth) + (EncU16(pf.redMax) + (EncU16(pf.greenMax) +
    (EncU16(pf.blueMax) + (EncU16(pf.redShift) + (EncU16(pf.greenShift) + EncU16(pf.blueShift)))))))
  }

  lemma OrderIsNotSent(pf: PixelFormat, bigEndian: bool)
    ensures EncPixelFormat(pf) == EncPixelFormat(pf.(bigEndian := bigEndian))
  {
    hide EncU16;
  }

  function DecPixelFormat(bigEndian: bool, s: Bytes): Parsed<PixelFormat> {
    var (bits, s) :- DecU16(s);
    var (depth, s) :- DecU16(s);
    var (redMax, s) :- DecU16(s);
    var (greenMax, s) :- DecU16(s);
    var (blueMax, s) :- DecU16(s);
    var (redShift, s) :- DecU16(s);
    var (greenShift, s) :- DecU16(s);
    var (blueShift, s) :- DecU16(s);
    var pf := PixelFormat(bits, depth, redMax, greenMax, blueMax, redShift, greenShift, blueShift, bigEndian);
    if PixelFormatAccepted(pf) then Got(pf, s) else Failed(WrongPixelFormat)
  }

  function EncDimension(dim: Dimension): Bytes {
    EncI32(dim.width) + EncI32(dim.height)
  }

  function DecDimension(s: Bytes): Parsed<Dimension> {
    var (width, s) :- DecI32(s);
    var (height, s) :- DecI32(s);
    if DimensionAccepted(Dimension(width, height)) then Got(Dimension(width, height), s) else Failed(WrongDimension)
  }

  function EncPoint(p: Point): Bytes {
    EncI32(p.x) + EncI32(p.y)
  }

  function DecPoint(s: Bytes): Parsed<Point> {
    var (x, s) :- DecI32(s);
    var (y, s) :- DecI32(s);
    Got(Point(x, y), s)
  }

  function EncRect(r: Rect): Bytes {
    EncI32(r.left) + (EncI32(r.top) + (EncI32(r.Width()) + EncI32(r.Height())))
  }

  function DecRect(s: Bytes): Parsed<Rect> {
    var (left, s) :- DecI32(s);
    var (top, s) :- DecI32(s);
    var (width, s) :- DecI32(s);
    var (height, s) :- DecI32(s);
    var r := Rect(left, top, left + width, top + height);
    if RectAccepted(r) then Got(r, s) else Failed(WrongRectangle)
  }

  lemma PixelFormatRoundTrip(pf: PixelFormat, rest: Bytes)
    requires PixelFormatFits(pf) && PixelFormatAccepted(pf)
    ensures DecPixelFormat(pf.bigEndian, EncPixelFormat(pf) + rest) == Got(pf, rest)
  {
    hide EncU16, DecU16;
    var s7 := EncU16(pf.blueShift) + rest;
    var s6 := EncU16(pf.greenShift) + s7;
    var s5 := EncU16(pf.redShift) + s6;
    var s4 := EncU16(pf.blueMax) + s5;
    var s3 := EncU16(pf.greenMax) + s4;
    var s2 := EncU16(pf.redMax) + s3;
    var s1 := EncU16(pf.colorDepth) + s2;
    assert EncPixelFormat(pf) + rest == EncU16(pf.bitsPerPixel) + s1;
    U16RoundTrip(pf.bitsPerPixel, s1);
    U16RoundTrip(pf.colorDepth, s2);
    U16RoundTrip(pf.redMax, s3);
    U16RoundTrip(pf.greenMax, s4);
    U16RoundTrip(pf.blueMax, s5);
    U16RoundTrip(pf.redShift, s6);
    U16RoundTrip(pf.greenShift, s7);
    U16RoundTrip(pf.blueShift, rest);
  }

  lemma PointRoundTrip(p: Point, rest: Bytes)
    requires IsInt32(p.x) && IsInt32(p.y)
    ensures DecPoint(EncPoint(p) + rest) == Got(p, rest)
  {
    hide EncI32, DecI32;
    assert EncPoint(p) + rest == EncI32(p.x) + (EncI32(p.y) + rest);
    I32RoundTrip(p.x, EncI32(p.y) + rest);
    I32RoundTrip(p.y, rest);
  }

  lemma DimensionRoundTrip(dim: Dimension, rest: Bytes)
    requires DimensionAccepted(dim)
    ensures DecDimension(EncDimension(dim) + rest) == Got(dim, rest)
  {
    hide EncI32, DecI32;
    assert EncDimension(dim) + rest == EncI32(dim.width) + (EncI32(dim.height) + rest);
    I32RoundTrip(dim.width, EncI32(dim.height) + rest);
    I32RoundTrip(dim.height, rest);
  }

  /** A rectangle is sent as corner and size and comes back with its edges. */
  lemma RectRoundTrip(r: Rect, rest: Bytes)
    requires RectAccepted(r)
    ensures DecRect(EncRect(r) + rest) == Got(r, rest)
  {
    hide EncI32, DecI32;
    var s3 := EncI32(r.Height()) + rest;
    var s2 := EncI32(r.Width()) + s3;
    var s1 := EncI32(r.top) + s2;
    assert EncRect(r) + rest == EncI32(r.left) + s1;
    I32RoundTrip(r.left, s1);
    I32RoundTrip(r.top, s2);
    I32RoundTrip(r.Width(), s3);
    I32RoundTrip(r.Height(), rest);
  }

  // ---------- Lists of rectangles, text ----------

  function EncRects(rects: seq<Rect>): Bytes {
    if rects == [] then [] else EncRects(rects[..|rects| - 1]) + EncRect(rects[|rects| - 1])
  }

  function DecRects(n: nat, s: Bytes): Parsed<seq<Rect>> {
    if n == 0 then Got([], s)
    else
      var (r, s) :- DecRect(s);
      var (rest, s) :- DecRects(n - 1, s);
      Got([r] + rest, s)
  }

  predicate RectsAccepted(rects: seq<Rect>) {
    |rects| < TWO32 && forall i :: 0 <= i < |rects| ==> RectAccepted(rects[i])
  }

  lemma {:induction false} EncRectsFirst(rects: seq<Rect>)
    requires rects != []
    ensures EncRects(rects) == EncRect(rects[0]) + EncRects(rects[1..])
  {
    hide EncRect;
    if |rects| == 1 {
      assert rects[..0] == [] && rects[1..] == [];
    } else {
      var m := |rects| - 1;
      var first, middle, last := EncRect(rects[0]), EncRects(rects[1..m]), EncRect(rects[m]);
      EncRectsFirst(rects[..m]);
      assert rects[..m][1..] == rects[1..m] && rects[1..][..m - 1] == rects[1..m];
      assert first + middle + last == first + (middle + last);
    }
  }

  lemma {:induction false} RectsRoundTrip(rects: seq<Rect>, rest: Bytes)
    requires RectsAccepted(rects)
    ensures DecRects(|rects|, EncRects(rects) + rest) == Got(rects, rest)
  {
    hide EncRect, DecRect;
    if rects != [] {
      EncRectsFirst(rects);
      var tail := EncRects(rects[1..]) + rest;
      assert EncRects(rects) + rest == EncRect(rects[0]) + tail;
      RectRoundTrip(rects[0], tail);
      RectsRoundTrip(rects[1..], rest);
      assert [rects[0]] + rects[1..] == rects;
    } else {
      assert EncRects(rects) + rest == rest;
    }
  }

  function EncRegion(rects: seq<Rect>): Bytes {
    EncU32(|rects|) + EncRects(rects)
  }

  function DecRegion(s: Bytes): Parsed<seq<Rect>> {
    var (n, s) :- DecU32(s);
    DecRects(n, s)
  }

  lemma RegionRoundTrip(rects: seq<Rect>, rest: Bytes)
    requires RectsAccepted(rects)
    ensures DecRegion(EncRegion(rects) + rest) == Got(rects, rest)
  {
    hide EncU32, DecU32, EncRects, DecRects;
    assert EncRegion(rects) + rest == EncU32(|rects|) + (EncRects(rects) + rest);
    U32RoundTrip(|rects|, EncRects(rects) + rest);
    RectsRoundTrip(rects, rest);
  }

  function EncText(text: Bytes): Bytes {
    EncU32(|text|) + text
  }

  function DecBytes(n: nat, s: Bytes): Parsed<Bytes> {
    if |s| < n then Failed(Blocked) else Got(s[..n], s[n..])
  }

  function DecText(s: Bytes): Parsed<Bytes> {
    var (n, s) :- DecU32(s);
    DecBytes(n, s)
  }

  lemma BytesRoundTrip(data: Bytes, rest: Bytes)
    ensures DecBytes(|data|, data + rest) == Got(data, rest)
  {
  }

  lemma TextRoundTrip(text: Bytes, rest: Bytes)
    requires |text| < TWO32
    ensures DecText(EncText(text) + rest) == Got(text, rest)
  {
    hide EncU32, DecU32;
    assert EncText(text) + rest == EncU32(|text|) + (text + rest);
    U32RoundTrip(|text|, text + rest);
  }
}
