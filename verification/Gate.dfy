/** The blocking gate and the send and read functions over it
    (desktop-ipc/DesktopServerProto.cpp).  Each is proved against its format in
    module Codec. */
module Gates {
  import opened Geometry
  import opened Regions
  import opened Frames
  import opened FrameBuffers
  import opened Codec

  datatype Result<+T> = Ok(value: T) | Err(error: Error) {
    predicate IsFailure() {
      Err?
    }

    function PropagateFailure<U>(): Result<U>
      requires Err?
    {
      Err(error)
    }

    function Extract(): T
      requires Ok?
    {
      value
    }
  }

  /** A read function returned what the format says and left what follows.
      After an error nothing is known about the rest of the stream. */
  ghost predicate Reads<T(!new)>(p: Parsed<T>, r: Result<T>, after: Bytes) {
    match p
    case Got(value, rest) => r == Ok(value) && after == rest
    case Failed(error) => r == Err(error)
  }

  /** `data` are the bytes written and not yet read. */
  class Gate {
    var data: Bytes

    constructor ()
      ensures data == []
    {
      data := [];
    }

    method WriteFully(s: Bytes)
      modifies this
      ensures data == old(data) + s
    {
      data := data + s;
    }

    method WriteUInt8(x: int)
      modifies this
      ensures data == old(data) + EncU8(x)
    {
      WriteFully(EncU8(x));
    }

    method WriteUInt16(x: int)
      modifies this
      ensures data == old(data) + EncU16(x)
    {
      WriteFully(EncU16(x));
    }

    method WriteUInt32(x: int)
      modifies this
      ensures data == old(data) + EncU32(x)
    {
      WriteFully(EncU32(x));
    }

    method WriteUInt64(x: int)
      modifies this
      ensures data == old(data) + EncU64(x)
    {
      WriteFully(EncU64(x));
    }

    method WriteInt32(x: int)
      modifies this
      ensures data == old(data) + EncI32(x)
    {
      WriteUInt32(x);
    }

    method WriteUTF8(text: Bytes)
      modifies this
      ensures data == old(data) + EncText(text)
    {
      WriteUInt32(|text|);
      WriteFully(text);
    }

    method ReadFully(n: nat) returns (r: Result<Bytes>)
      modifies this
      ensures Reads(DecBytes(n, old(data)), r, data)
    {
      if |data| < n {
        return Err(Blocked);
      }
      r := Ok(data[..n]);
      data := data[n..];
    }

    method ReadUInt8() returns (r: Result<int>)
      modifies this
      ensures Reads(DecU8(old(data)), r, data)
      ensures r.Ok? ==> 0 <= r.value < 256
    {
      var buf :- ReadFully(1);
      r := Ok(buf[0] as int);
    }

    method ReadUInt16() returns (r: Result<int>)
      modifies this
      ensures Reads(DecU16(old(data)), r, data)
      ensures r.Ok? ==> IsUInt16(r.value)
    {
      var buf :- ReadFully(2);
      r := Ok(buf[0] as int * 256 + buf[1] as int);
    }

    method ReadUInt32() returns (r: Result<int>)
      modifies this
      ensures Reads(DecU32(old(data)), r, data)
      ensures r.Ok? ==> 0 <= r.value < TWO32
    {
      var buf :- ReadFully(4);
      r := Ok((buf[0] as int * 256 + buf[1] as int) * TWO16 + (buf[2] as int * 256 + buf[3] as int));
    }

    method ReadUInt64() returns (r: Result<int>)
      modifies this
      ensures Reads(DecU64(old(data)), r, data)
    {
      var buf :- ReadFully(8);
      var hi := (buf[0] as int * 256 + buf[1] as int) * TWO16 + (buf[2] as int * 256 + buf[3] as int);
      var lo := (buf[4] as int * 256 + buf[5] as int) * TWO16 + (buf[6] as int * 256 + buf[7] as int);
      r := Ok(hi * TWO32 + lo);
    }

    method ReadInt32() returns (r: Result<int>)
      modifies this
      ensures Reads(DecI32(old(data)), r, data)
    {
      var x :- ReadUInt32();
      r := Ok(if x < TWO32 / 2 then x else x - TWO32);
    }

    method ReadUTF8() returns (r: Result<Bytes>)
      modifies this
      ensures Reads(DecText(old(data)), r, data)
    {
      var n :- ReadUInt32();
      if n > 0 {
        r := ReadFully(n);
      } else {
        r := Ok([]);
      }
    }
  }

  // ---------- DesktopServerProto ----------

  method SendPixelFormat(pf: PixelFormat, gate: Gate)
    modifies gate
    ensures gate.data == old(gate.data) + EncPixelFormat(pf)
  {
    hide EncU16;
    gate.WriteUInt16(pf.bitsPerPixel);
    gate.WriteUInt16(pf.colorDepth);
    gate.WriteUInt16(pf.redMax);
    gate.WriteUInt16(pf.greenMax);
    gate.WriteUInt16(pf.blueMax);
    gate.WriteUInt16(pf.redShift);
    gate.WriteUInt16(pf.greenShift);
    gate.WriteUInt16(pf.blueShift);
  }

  /** The byte order of `old` is kept: it is not sent. */
  method ReadPixelFormat(before: PixelFormat, gate: Gate) returns (r: Result<PixelFormat>)
    modifies gate
    ensures Reads(DecPixelFormat(before.bigEndian, old(gate.data)), r, gate.data)
    ensures r.Ok? ==> r.value.IsValid()
  {
    hide DecU16;
    var bitsPerPixel :- gate.ReadUInt16();
    var colorDepth :- gate.ReadUInt16();
    var redMax :- gate.ReadUInt16();
    var greenMax :- gate.ReadUInt16();
    var blueMax :- gate.ReadUInt16();
    var redShift :- gate.ReadUInt16();
    var greenShift :- gate.ReadUInt16();
    var blueShift :- gate.ReadUInt16();
    var pf := PixelFormat(bitsPerPixel, colorDepth, redMax, greenMax, blueMax, redShift, greenShift, blueShift,
                          before.bigEndian);
    r := if PixelFormatAccepted(pf) then Ok(pf) else Err(WrongPixelFormat);
  }

  method SendDimension(dim: Dimension, gate: Gate)
    modifies gate
    ensures gate.data == old(gate.data) + EncDimension(dim)
  {
    gate.WriteInt32(dim.width);
    gate.WriteInt32(dim.height);
  }

  method ReadDimension(gate: Gate) returns (r: Result<Dimension>)
    modifies gate
    ensures Reads(DecDimension(old(gate.data)), r, gate.data)
  {
    hide DecI32;
    var width :- gate.ReadInt32();
    var height :- gate.ReadInt32();
    var dim := Dimension(width, height);
    r := if DimensionAccepted(dim) then Ok(dim) else Err(WrongDimension);
  }

  method SendPoint(p: Point, gate: Gate)
    modifies gate
    ensures gate.data == old(gate.data) + EncPoint(p)
  {
    gate.WriteInt32(p.x);
    gate.WriteInt32(p.y);
  }

  method ReadPoint(gate: Gate) returns (r: Result<Point>)
    modifies gate
    ensures Reads(DecPoint(old(gate.data)), r, gate.data)
  {
    hide DecI32;
    var x :- gate.ReadInt32();
    var y :- gate.ReadInt32();
    r := Ok(Point(x, y));
  }

  method SendRect(rect: Rect, gate: Gate)
    modifies gate
    ensures gate.data == old(gate.data) + EncRect(rect)
  {
    hide EncI32;
    gate.WriteInt32(rect.left);
    gate.WriteInt32(rect.top);
    gate.WriteInt32(rect.Width());
    gate.WriteInt32(rect.Height());
  }

  method ReadRect(gate: Gate) returns (r: Result<Rect>)
    modifies gate
    ensures Reads(DecRect(old(gate.data)), r, gate.data)
  {
    hide DecI32;
    var left :- gate.ReadInt32();
    var top :- gate.ReadInt32();
    var width :- gate.ReadInt32();
    var height :- gate.ReadInt32();
    var rect := Rect(left, top, left + width, top + height);
    r := if RectAccepted(rect) then Ok(rect) else Err(WrongRectangle);
  }

  /** The count is cut to 32 bits; the rectangles all follow. */
  method SendRects(rects: seq<Rect>, gate: Gate)
    modifies gate
    ensures gate.data == old(gate.data) + EncRegion(rects)
  {
    hide EncU32, EncRect;
    gate.WriteUInt32(|rects|);
    ghost var start := gate.data;
    assert start + EncRects([]) == start;
    for i := 0 to |rects|
      invariant gate.data == start + EncRects(rects[..i])
    {
      SendRect(rects[i], gate);
      assert rects[..i + 1][..i] == rects[..i];
    }
    assert rects[..|rects|] == rects;
  }

  method SendRegion(region: Region, gate: Gate) returns (ghost rects: seq<Rect>)
    modifies gate
    ensures rects == GetRectVector(region) && gate.data == old(gate.data) + EncRegion(rects)
  {
    var list := GetRectVector(region);
    rects := list;
    SendRects(list, gate);
  }

  /** What is still to be read after the rectangles in `read`. */
  ghost function ReadBefore(read: seq<Rect>, p: Parsed<seq<Rect>>): Parsed<seq<Rect>> {
    match p
    case Got(more, rest) => Got(read + more, rest)
    case Failed(error) => Failed(error)
  }

  lemma ReadOneMore(read: seq<Rect>, r: Rect, p: Parsed<seq<Rect>>)
    ensures ReadBefore(read, ReadBefore([r], p)) == ReadBefore(read + [r], p)
  {
    if p.Got? {
      assert read + ([r] + p.value) == read + [r] + p.value;
    }
  }

  lemma ReadNothing(p: Parsed<seq<Rect>>)
    ensures ReadBefore([], p) == p
  {
    if p.Got? {
      assert [] + p.value == p.value;
    }
  }

  /** The read region is the union of the listed rectangles. */
  method ReadRegion(gate: Gate) returns (r: Result<Region>, ghost rects: seq<Rect>)
    modifies gate
    ensures match DecRegion(old(gate.data))
            case Got(value, rest) => rects == value && r == Ok(UnionOf(value)) && gate.data == rest
            case Failed(error) => r == Err(error)
  {
    hide DecU32, DecRect;
    ghost var start := gate.data;
    rects := [];
    var count := gate.ReadUInt32();
    if count.Err? {
      return Err(count.error), rects;
    }
    var region: Region := {};
    ReadNothing(DecRects(count.value, gate.data));
    for i := 0 to count.value
      invariant DecRegion(start) == ReadBefore(rects, DecRects(count.value - i, gate.data))
      invariant region == UnionOf(rects)
    {
      ghost var before := gate.data;
      var rect := ReadRect(gate);
      if rect.Err? {
        return Err(rect.error), rects;
      }
      assert DecRects(count.value - i, before) == ReadBefore([rect.value], DecRects(count.value - i - 1, gate.data));
      ReadOneMore(rects, rect.value, DecRects(count.value - i - 1, gate.data));
      assert (rects + [rect.value])[..|rects|] == rects;
      region := region + Pixels(rect.value);
      rects := rects + [rect.value];
    }
    assert rects + [] == rects;
    r := Ok(region);
  }
}
