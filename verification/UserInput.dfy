/** User input between the two desktop processes (desktop-ipc/UserInputClient.cpp,
    desktop-ipc/UserInputServer.cpp): events one way, questions with their
    answers both ways. */
module UserInputs {
  import opened Geometry
  import opened Frames
  import opened FrameBuffers
  import opened Codec
  import opened Gates

  const CLIPBOARD_CHANGED := 30
  const POINTER_POS_CHANGED := 31
  const KEYBOARD_EVENT := 32
  const USER_INPUT_INIT := 33
  const USER_INFO_REQ := 34
  const DESKTOP_COORDS_REQ := 35
  const WINDOW_COORDS_REQ := 36
  const WINDOW_HANDLE_REQ := 37
  const DISPLAY_NUMBER_COORDS_REQ := 38
  const APPLICATION_REGION_REQ := 39
  const NORMALIZE_RECT_REQ := 40

  datatype Request =
    | NewClipboard(text: Bytes)
    | Pointer(pos: Point, flags: int)
    | Key(keySym: int, down: bool)
    | Init(keyFlags: int)
    | UserInfo
    | DesktopCoords
    | WindowCoords(hwnd: int)
    | WindowHandle(name: Bytes)
    | DisplayCoords(number: int)
    | ApplicationRegion(procId: int)
    | NormalizeRect(rect: Rect)
  {
    /** Events are not answered. */
    predicate IsEvent() {
      NewClipboard? || Pointer? || Key? || Init?
    }

    function Code(): int {
      match this
      case NewClipboard(_) => CLIPBOARD_CHANGED
      case Pointer(_, _) => POINTER_POS_CHANGED
      case Key(_, _) => KEYBOARD_EVENT
      case Init(_) => USER_INPUT_INIT
      case UserInfo => USER_INFO_REQ
      case DesktopCoords => DESKTOP_COORDS_REQ
      case WindowCoords(_) => WINDOW_COORDS_REQ
      case WindowHandle(_) => WINDOW_HANDLE_REQ
      case DisplayCoords(_) => DISPLAY_NUMBER_COORDS_REQ
      case ApplicationRegion(_) => APPLICATION_REGION_REQ
      case NormalizeRect(_) => NORMALIZE_RECT_REQ
    }
  }

  datatype Answer =
    | Info(desktopName: Bytes, userName: Bytes)
    | Coords(rect: Rect)
    | BrokenWindow(message: Bytes)
    | Handle(hwnd: int)
    | Windows(region: Region)

  // ---------- Requests ----------

  function EncPayload(q: Request): Bytes {
    match q
    case NewClipboard(text) => EncText(text)
    case Pointer(pos, flags) => EncU16(pos.x) + (EncU16(pos.y) + EncU8(flags))
    case Key(keySym, down) => EncU32(keySym) + EncU8(if down then 1 else 0)
    case Init(keyFlags) => EncU8(keyFlags)
    case UserInfo => []
    case DesktopCoords => []
    case WindowCoords(hwnd) => EncU64(hwnd)
    case WindowHandle(name) => EncText(name)
    case DisplayCoords(number) => EncU8(number)
    case ApplicationRegion(procId) => EncU32(procId)
    case NormalizeRect(rect) => EncRect(rect)
  }

  function EncRequest(q: Request): Bytes {
    EncU8(q.Code()) + EncPayload(q)
  }

  function DecPointer(s: Bytes): Parsed<Request> {
    var (x, s) :- DecU16(s);
    var (y, s) :- DecU16(s);
    var (flags, s) :- DecU8(s);
    Got(Pointer(Point(x, y), flags), s)
  }

  function DecKey(s: Bytes): Parsed<Request> {
    var (keySym, s) :- DecU32(s);
    var (down, s) :- DecU8(s);
    Got(Key(keySym, down != 0), s)
  }

  /** `make` applied to what was decoded. */
  function Made<T>(p: Parsed<T>, make: T -> Request): Parsed<Request> {
    match p
    case Got(value, rest) => Got(make(value), rest)
    case Failed(error) => Failed(error)
  }

  function DecPayload(code: int, s: Bytes): Parsed<Request> {
    if code == POINTER_POS_CHANGED then DecPointer(s)
    else if code == CLIPBOARD_CHANGED then Made(DecText(s), text => NewClipboard(text))
    else if code == KEYBOARD_EVENT then DecKey(s)
    else if code == USER_INFO_REQ then Got(UserInfo, s)
    else if code == DESKTOP_COORDS_REQ then Got(DesktopCoords, s)
    else if code == WINDOW_COORDS_REQ then Made(DecU64(s), hwnd => WindowCoords(hwnd))
    else if code == WINDOW_HANDLE_REQ then Made(DecText(s), name => WindowHandle(name))
    else if code == DISPLAY_NUMBER_COORDS_REQ then Made(DecU8(s), number => DisplayCoords(number))
    else if code == APPLICATION_REGION_REQ then Made(DecU32(s), procId => ApplicationRegion(procId))
    else if code == NORMALIZE_RECT_REQ then Made(DecRect(s), rect => NormalizeRect(rect))
    else if code == USER_INPUT_INIT then Made(DecU8(s), flags => Init(flags))
    else Failed(UnknownCode)
  }

  function DecRequest(s: Bytes): Parsed<Request> {
    var (code, s) :- DecU8(s);
    DecPayload(code, s)
  }

  /** The arguments as the client's types hold them. */
  predicate RequestFits(q: Request) {
    match q
    case NewClipboard(text) => |text| < TWO32
    case Pointer(pos, flags) => 0 <= flags < 256
    case Key(keySym, down) => 0 <= keySym < TWO32
    case Init(keyFlags) => 0 <= keyFlags < 256
    case UserInfo => true
    case DesktopCoords => true
    case WindowCoords(hwnd) => 0 <= hwnd < TWO32 * TWO32
    case WindowHandle(name) => |name| < TWO32
    case DisplayCoords(number) => 0 <= number < 256
    case ApplicationRegion(procId) => 0 <= procId < TWO32
    case NormalizeRect(rect) => RectAccepted(rect)
  }

  /** Pointer coordinates are cut to 16 bits, everything else arrives as it is. */
  function Arriving(q: Request): Request {
    if q.Pointer? then q.(pos := Point(q.pos.x % TWO16, q.pos.y % TWO16)) else q
  }

  lemma PointerRoundTrip(pos: Point, flags: int, rest: Bytes)
    requires 0 <= flags < 256
    ensures DecPointer(EncPayload(Pointer(pos, flags)) + rest) == Got(Arriving(Pointer(pos, flags)), rest)
  {
    hide EncU16, DecU16, EncU8, DecU8;
    var s2 := EncU8(flags) + rest;
    var s1 := EncU16(pos.y) + s2;
    assert EncPayload(Pointer(pos, flags)) + rest == EncU16(pos.x) + s1;
    U16RoundTrip(pos.x, s1);
    U16RoundTrip(pos.y, s2);
    U8RoundTrip(flags, rest);
  }

  lemma KeyRoundTrip(keySym: int, down: bool, rest: Bytes)
    requires 0 <= keySym < TWO32
    ensures DecKey(EncPayload(Key(keySym, down)) + rest) == Got(Key(keySym, down), rest)
  {
    hide EncU32, DecU32, EncU8, DecU8;
    var flag := if down then 1 else 0;
    assert EncPayload(Key(keySym, down)) + rest == EncU32(keySym) + (EncU8(flag) + rest);
    U32RoundTrip(keySym, EncU8(flag) + rest);
    U8RoundTrip(flag, rest);
  }

  lemma PayloadRoundTrip(q: Request, rest: Bytes)
    requires RequestFits(q)
    ensures DecPayload(q.Code(), EncPayload(q) + rest) == Got(Arriving(q), rest)
  {
    hide EncU8, DecU8, EncU32, DecU32, EncU64, DecU64, EncText, DecText, EncRect, DecRect, DecPointer, DecKey,
         RectAccepted;
    match q
    case NewClipboard(text) => TextRoundTrip(text, rest);
    case Pointer(pos, flags) => PointerRoundTrip(pos, flags, rest);
    case Key(keySym, down) => KeyRoundTrip(keySym, down, rest);
    case Init(keyFlags) => U8RoundTrip(keyFlags, rest);
    case UserInfo => assert [] + rest == rest;
    case DesktopCoords => assert [] + rest == rest;
    case WindowCoords(hwnd) => U64RoundTrip(hwnd, rest);
    case WindowHandle(name) => TextRoundTrip(name, rest);
    case DisplayCoords(number) => U8RoundTrip(number, rest);
    case ApplicationRegion(procId) => U32RoundTrip(procId, rest);
    case NormalizeRect(rect) => RectRoundTrip(rect, rest);
  }

  /** Every request delimits itself.  It arrives unchanged, but for a pointer
      position outside 0..65535, which never does. */
  lemma RequestRoundTrip(q: Request, rest: Bytes)
    requires RequestFits(q)
    ensures DecRequest(EncRequest(q) + rest) == Got(Arriving(q), rest)
    ensures Arriving(q) == q <==> (q.Pointer? ==> IsUInt16(q.pos.x) && IsUInt16(q.pos.y))
  {
    hide EncU8, DecU8, EncPayload, DecPayload, RequestFits;
    assert EncRequest(q) + rest == EncU8(q.Code()) + (EncPayload(q) + rest);
    U8RoundTrip(q.Code(), EncPayload(q) + rest);
    PayloadRoundTrip(q, rest);
    assert 0 <= q.Code() < 256;
  }

  // ---------- Answers ----------

  /** The desktop as the server's input object sees it. */
  datatype Desktop = Desktop(
    names: (Bytes, Bytes),
    primary: Rect,
    window: int -> Result<Rect>,
    brokenMessage: Bytes,
    handle: Bytes -> int,
    display: int -> Rect,
    application: int -> Region,
    normalized: Rect -> Rect)

  function AnswerOf(d: Desktop, q: Request): Answer
    requires !q.IsEvent()
  {
    match q
    case UserInfo => Info(d.names.0, d.names.1)
    case DesktopCoords => Coords(d.primary)
    case WindowCoords(hwnd) =>
      if d.window(hwnd).Ok? then Coords(d.window(hwnd).value) else BrokenWindow(d.brokenMessage)
    case WindowHandle(name) => Handle(d.handle(name))
    case DisplayCoords(number) => Coords(d.display(number))
    case ApplicationRegion(procId) => Windows(d.application(procId))
    case NormalizeRect(rect) => Coords(d.normalized(rect))
  }

  /** What the server writes; a region as the rectangles `rects`. */
  function EncAnswer(a: Answer, rects: seq<Rect>): Bytes {
    match a
    case Info(desktopName, userName) => EncText(desktopName) + EncText(userName)
    case Coords(rect) => EncRect(rect)
    case BrokenWindow(message) => EncU8(1) + EncText(message)
    case Handle(hwnd) => EncU64(hwnd)
    case Windows(region) => EncRegion(rects)
  }

  ghost predicate Lists(rects: seq<Rect>, a: Answer) {
    a.Windows? ==> IsRectVector(rects, a.region)
  }

  function DecInfo(s: Bytes): Parsed<Answer> {
    var (desktopName, s) :- DecText(s);
    var (userName, s) :- DecText(s);
    Got(Info(desktopName, userName), s)
  }

  function DecCoords(s: Bytes): Parsed<Answer> {
    var (rect, s) :- DecRect(s);
    Got(Coords(rect), s)
  }

  /** The client reads a flag before the rectangle. */
  function DecWindowCoords(s: Bytes): Parsed<Answer> {
    var (broken, s) :- DecU8(s);
    if broken == 0 then DecCoords(s)
    else
      var (message, s) :- DecText(s);
      Got(BrokenWindow(message), s)
  }

  function DecHandle(s: Bytes): Parsed<Answer> {
    var (hwnd, s) :- DecU64(s);
    Got(Handle(hwnd), s)
  }

  function DecWindows(s: Bytes): Parsed<Answer> {
    var (rects, s) :- DecRegion(s);
    Got(Windows(UnionOf(rects)), s)
  }

  /** What the client reads after it asked `q`. */
  function DecAnswer(q: Request, s: Bytes): Parsed<Answer>
    requires !q.IsEvent()
  {
    match q
    case UserInfo => DecInfo(s)
    case DesktopCoords => DecCoords(s)
    case WindowCoords(hwnd) => DecWindowCoords(s)
    case WindowHandle(name) => DecHandle(s)
    case DisplayCoords(number) => DecCoords(s)
    case ApplicationRegion(procId) => DecWindows(s)
    case NormalizeRect(rect) => DecCoords(s)
  }

  predicate AnswerFits(a: Answer, rects: seq<Rect>) {
    match a
    case Info(desktopName, userName) => |desktopName| < TWO32 && |userName| < TWO32
    case Coords(rect) => RectAccepted(rect)
    case BrokenWindow(message) => |message| < TWO32
    case Handle(hwnd) => 0 <= hwnd < TWO32 * TWO32
    case Windows(region) => RectsAccepted(rects)
  }

  lemma InfoRoundTrip(a: Answer, rest: Bytes)
    requires a.Info? && AnswerFits(a, [])
    ensures DecInfo(EncAnswer(a, []) + rest) == Got(a, rest)
  {
    hide EncText, DecText;
    assert EncAnswer(a, []) + rest == EncText(a.desktopName) + (EncText(a.userName) + rest);
    TextRoundTrip(a.desktopName, EncText(a.userName) + rest);
    TextRoundTrip(a.userName, rest);
  }

  lemma BrokenWindowRoundTrip(a: Answer, rest: Bytes)
    requires a.BrokenWindow? && AnswerFits(a, [])
    ensures DecWindowCoords(EncAnswer(a, []) + rest) == Got(a, rest)
  {
    hide EncText, DecText, EncU8, DecU8;
    assert EncAnswer(a, []) + rest == EncU8(1) + (EncText(a.message) + rest);
    U8RoundTrip(1, EncText(a.message) + rest);
    TextRoundTrip(a.message, rest);
  }

  /** Every answer but the coordinates of a window arrives. */
  lemma AnswerRoundTrip(d: Desktop, q: Request, rects: seq<Rect>, rest: Bytes)
    requires !q.IsEvent() && AnswerFits(AnswerOf(d, q), rects) && Lists(rects, AnswerOf(d, q))
    requires q.WindowCoords? ==> d.window(q.hwnd).Err?
    ensures DecAnswer(q, EncAnswer(AnswerOf(d, q), rects) + rest) == Got(AnswerOf(d, q), rest)
  {
    hide EncText, DecText, EncU64, DecU64, EncRect, DecRect, EncRegion, DecRegion, DecInfo, DecWindowCoords,
         RectAccepted, RectsAccepted, IsRectVector, UnionOf;
    var a := AnswerOf(d, q);
    match a
    case Info(_, _) => InfoRoundTrip(a, rest);
    case Coords(rect) => RectRoundTrip(rect, rest);
    case BrokenWindow(_) => BrokenWindowRoundTrip(a, rest);
    case Handle(hwnd) => U64RoundTrip(hwnd, rest);
    case Windows(region) =>
      RegionRoundTrip(rects, rest);
      UnionOfRectVector(rects, region);
  }

  /** The coordinates of a window never arrive: whatever the rectangle, the
      client takes its first byte for the flag and waits for bytes that the
      server never writes. */
  lemma WindowCoordsNeverArrive(rect: Rect, rects: seq<Rect>, hwnd: int)
    requires RectAccepted(rect)
    ensures DecAnswer(WindowCoords(hwnd), EncAnswer(Coords(rect), rects)) == Failed(Blocked)
  {
    hide EncI32;
    var s := EncRect(rect);
    assert |s| == 16;
    assert forall i :: 0 <= i < 4 ==> s[i] == EncI32(rect.left)[i];
    if rect.left >= 0 {
      NotNegativeStartsWithZero(rect.left);
      ShortRect(s[1..]);
    } else {
      NegativeStartsWithOnes(rect.left);
      LongText(s[1..]);
    }
  }

  lemma NotNegativeStartsWithZero(x: int)
    requires 0 <= x <= 32000
    ensures EncI32(x)[0] == 0
  {
  }

  lemma NegativeStartsWithOnes(x: int)
    requires -32000 <= x < 0
    ensures EncI32(x)[0] == 255 && EncI32(x)[1] == 255
  {
    assert x % TWO32 == x + TWO32;
  }

  lemma ShortRect(s: Bytes)
    requires |s| == 15
    ensures DecRect(s) == Failed(Blocked)
  {
    hide DecU16;
    assert s[4..][4..][4..] == s[12..];
  }

  lemma LongText(s: Bytes)
    requires |s| == 15 && s[0] == 255
    ensures DecText(s) == Failed(Blocked)
  {
    assert DecU32(s).value >= 255 * 256 * TWO16;
  }

  /** So an answer arrives exactly when it is not a window that was found. */
  lemma AnswerArrivesIff(d: Desktop, q: Request, rects: seq<Rect>)
    requires !q.IsEvent() && AnswerFits(AnswerOf(d, q), rects) && Lists(rects, AnswerOf(d, q))
    ensures DecAnswer(q, EncAnswer(AnswerOf(d, q), rects)) == Got(AnswerOf(d, q), []) <==>
            !(q.WindowCoords? && d.window(q.hwnd).Ok?)
  {
    hide EncAnswer, DecAnswer, RectAccepted, IsRectVector;
    if q.WindowCoords? && d.window(q.hwnd).Ok? {
      WindowCoordsNeverArrive(d.window(q.hwnd).value, rects, q.hwnd);
    } else {
      AnswerRoundTrip(d, q, rects, []);
      assert EncAnswer(AnswerOf(d, q), rects) + [] == EncAnswer(AnswerOf(d, q), rects);
    }
  }

  /** The flag that the client expects, written. */
  function EncAnswerRepaired(q: Request, a: Answer, rects: seq<Rect>): Bytes {
    if q.WindowCoords? && a.Coords? then EncU8(0) + EncRect(a.rect) else EncAnswer(a, rects)
  }

  lemma RepairedRoundTrip(d: Desktop, q: Request, rects: seq<Rect>, rest: Bytes)
    requires !q.IsEvent() && AnswerFits(AnswerOf(d, q), rects) && Lists(rects, AnswerOf(d, q))
    ensures DecAnswer(q, EncAnswerRepaired(q, AnswerOf(d, q), rects) + rest) == Got(AnswerOf(d, q), rest)
  {
    hide EncU8, DecU8, EncRect, DecRect, EncAnswer, RectAccepted, RectsAccepted, IsRectVector;
    var a := AnswerOf(d, q);
    if q.WindowCoords? && a.Coords? {
      assert EncAnswerRepaired(q, a, rects) + rest == EncU8(0) + (EncRect(a.rect) + rest);
      U8RoundTrip(0, EncRect(a.rect) + rest);
      RectRoundTrip(a.rect, rest);
    } else {
      AnswerRoundTrip(d, q, rects, rest);
    }
  }

  // ---------- The server ----------

  /** What is still unread, what was done, what was written. */
  datatype Conversation = Conversation(input: Bytes, done: seq<Request>, output: Bytes)

  ghost predicate Answers(a: Answer, before: Bytes, after: Bytes) {
    exists rects :: Lists(rects, a) && after == before + EncAnswer(a, rects)
  }

  /** A request was served: an event done, a question answered. */
  ghost predicate Serves(d: Desktop, p: Parsed<Request>, before: Conversation, after: Conversation, r: Result<()>) {
    match p
    case Failed(error) => r == Err(error) && after.done == before.done && after.output == before.output
    case Got(q, rest) =>
      && r == Ok(()) && after.input == rest
      && (q.IsEvent() ==> after.done == before.done + [q] && after.output == before.output)
      && (!q.IsEvent() ==> after.done == before.done && Answers(AnswerOf(d, q), before.output, after.output))
  }

  lemma AnswersByBytes(a: Answer, before: Bytes, after: Bytes)
    requires !a.Windows? && after == before + EncAnswer(a, [])
    ensures Answers(a, before, after)
  {
    assert Lists([], a);
  }

  class UserInputServer {
    const desktop: Desktop
    var done: seq<Request>

    constructor (desktop: Desktop)
      ensures this.desktop == desktop && done == []
    {
      this.desktop, done := desktop, [];
    }

    ghost function Talk(input: Gate, output: Gate): Conversation
      reads this, input, output
    {
      Conversation(input.data, done, output.data)
    }

    method OnRequest(reqCode: int, input: Gate, output: Gate) returns (r: Result<()>)
      requires input != output
      modifies this`done, input, output
      ensures Serves(desktop, DecPayload(reqCode, old(input.data)), old(Talk(input, output)), Talk(input, output), r)
    {
      hide DecText, DecU8, DecU64, DecU32, DecRect, DecPointer, DecKey, EncText, EncU64, EncRect, EncRegion, EncU8,
           Answers;
      if reqCode == POINTER_POS_CHANGED {
        r := ApplyNewPointerPos(input);
      } else if reqCode == CLIPBOARD_CHANGED {
        var text :- input.ReadUTF8();
        done := done + [NewClipboard(text)];
        r := Ok(());
      } else if reqCode == KEYBOARD_EVENT {
        r := ApplyKeyEvent(input);
      } else if reqCode == USER_INPUT_INIT {
        var keyFlags :- input.ReadUInt8();
        done := done + [Init(keyFlags)];
        r := Ok(());
      } else {
        r := Answer(reqCode, input, output);
      }
    }

    method ApplyNewPointerPos(input: Gate) returns (r: Result<()>)
      modifies this`done, input
      ensures match DecPointer(old(input.data))
              case Failed(error) => r == Err(error) && done == old(done)
              case Got(q, rest) => r == Ok(()) && done == old(done) + [q] && input.data == rest && q.Pointer?
    {
      hide DecU16, DecU8;
      var x :- input.ReadUInt16();
      var y :- input.ReadUInt16();
      var flags :- input.ReadUInt8();
      done := done + [Pointer(Point(x, y), flags)];
      r := Ok(());
    }

    method ApplyKeyEvent(input: Gate) returns (r: Result<()>)
      modifies this`done, input
      ensures match DecKey(old(input.data))
              case Failed(error) => r == Err(error) && done == old(done)
              case Got(q, rest) => r == Ok(()) && done == old(done) + [q] && input.data == rest && q.Key?
    {
      hide DecU32, DecU8;
      var keySym :- input.ReadUInt32();
      var down :- input.ReadUInt8();
      done := done + [Key(keySym, down != 0)];
      r := Ok(());
    }

    /** The questions. */
    method Answer(reqCode: int, input: Gate, output: Gate) returns (r: Result<()>)
      requires input != output
      requires reqCode !in {POINTER_POS_CHANGED, CLIPBOARD_CHANGED, KEYBOARD_EVENT, USER_INPUT_INIT}
      modifies input, output
      ensures Serves(desktop, DecPayload(reqCode, old(input.data)), old(Talk(input, output)), Talk(input, output), r)
    {
      hide DecText, DecU8, DecU64, DecU32, DecRect, EncText, EncU64, EncRect, EncRegion, EncU8, Answers, IsRectVector;
      ghost var start := output.data;
      r := Ok(());
      if reqCode == USER_INFO_REQ {
        SendUserInfo(desktop.names.0, desktop.names.1, output);
        AnswersByBytes(AnswerOf(desktop, UserInfo), start, output.data);
      } else if reqCode == DESKTOP_COORDS_REQ {
        SendRect(desktop.primary, output);
        AnswersByBytes(AnswerOf(desktop, DesktopCoords), start, output.data);
      } else if reqCode == WINDOW_COORDS_REQ {
        var hwnd :- input.ReadUInt64();
        AnswerWindowCoords(hwnd, output);
      } else if reqCode == WINDOW_HANDLE_REQ {
        var name :- input.ReadUTF8();
        output.WriteUInt64(desktop.handle(name));
        AnswersByBytes(AnswerOf(desktop, WindowHandle(name)), start, output.data);
      } else if reqCode == DISPLAY_NUMBER_COORDS_REQ {
        var number :- input.ReadUInt8();
        SendRect(desktop.display(number), output);
        AnswersByBytes(AnswerOf(desktop, DisplayCoords(number)), start, output.data);
      } else if reqCode == APPLICATION_REGION_REQ {
        var procId :- input.ReadUInt32();
        AnswerApplicationRegion(procId, output);
      } else if reqCode == NORMALIZE_RECT_REQ {
        var rect :- ReadRect(input);
        SendRect(desktop.normalized(rect), output);
        AnswersByBytes(AnswerOf(desktop, NormalizeRect(rect)), start, output.data);
      } else {
        r := Err(UnknownCode);
      }
    }

    method AnswerWindowCoords(hwnd: int, output: Gate)
      modifies output
      ensures Answers(AnswerOf(desktop, WindowCoords(hwnd)), old(output.data), output.data)
    {
      hide EncRect, EncText, EncU8, Answers;
      var found := desktop.window(hwnd);
      if found.Ok? {
        SendRect(found.value, output);
      } else {
        output.WriteUInt8(1);
        output.WriteUTF8(desktop.brokenMessage);
      }
      AnswersByBytes(AnswerOf(desktop, WindowCoords(hwnd)), old(output.data), output.data);
    }

    method AnswerApplicationRegion(procId: int, output: Gate)
      modifies output
      ensures Answers(AnswerOf(desktop, ApplicationRegion(procId)), old(output.data), output.data)
    {
      hide EncRegion, IsRectVector;
      ghost var rects := SendRegion(desktop.application(procId), output);
      assert Lists(rects, AnswerOf(desktop, ApplicationRegion(procId)));
    }
  }

  method SendUserInfo(desktopName: Bytes, userName: Bytes, gate: Gate)
    modifies gate
    ensures gate.data == old(gate.data) + EncAnswer(Info(desktopName, userName), [])
  {
    hide EncText;
    gate.WriteUTF8(desktopName);
    gate.WriteUTF8(userName);
  }

  // ---------- The client ----------

  class UserInputClient {
    var sendMouseFlags: int

    constructor ()
      ensures sendMouseFlags == 0
    {
      sendMouseFlags := 0;
    }

    /** A new server process learns which mouse buttons are down. */
    method SendInit(gate: Gate)
      modifies gate
      ensures gate.data == old(gate.data) + EncRequest(Init(sendMouseFlags))
    {
      hide EncU8;
      gate.WriteUInt8(USER_INPUT_INIT);
      gate.WriteUInt8(sendMouseFlags);
    }

    method SetMouseEvent(newPos: Point, keyFlag: int, gate: Gate)
      modifies this, gate
      ensures gate.data == old(gate.data) + EncRequest(Pointer(newPos, keyFlag)) && sendMouseFlags == keyFlag
    {
      hide EncU8, EncU16;
      gate.WriteUInt8(POINTER_POS_CHANGED);
      gate.WriteUInt16(newPos.x);
      gate.WriteUInt16(newPos.y);
      gate.WriteUInt8(keyFlag);
      sendMouseFlags := keyFlag;
    }

    method SetNewClipboard(newClipboard: Bytes, gate: Gate)
      modifies gate
      ensures gate.data == old(gate.data) + EncRequest(NewClipboard(newClipboard))
    {
      hide EncU8, EncText;
      gate.WriteUInt8(CLIPBOARD_CHANGED);
      gate.WriteUTF8(newClipboard);
    }

    method SetKeyboardEvent(keySym: int, down: bool, gate: Gate)
      modifies gate
      ensures gate.data == old(gate.data) + EncRequest(Key(keySym, down))
    {
      hide EncU8, EncU32;
      gate.WriteUInt8(KEYBOARD_EVENT);
      gate.WriteUInt32(keySym);
      gate.WriteUInt8(if down then 1 else 0);
    }

    /** The request half of the question functions. */
    method Ask(q: Request, gate: Gate)
      requires !q.IsEvent()
      modifies gate
      ensures gate.data == old(gate.data) + EncRequest(q)
    {
      hide EncU8, EncText, EncU32, EncU64, EncRect;
      gate.WriteUInt8(q.Code());
      ghost var start := gate.data;
      match q
      case UserInfo =>
      case DesktopCoords =>
      case WindowCoords(hwnd) => gate.WriteUInt64(hwnd);
      case WindowHandle(name) => gate.WriteUTF8(name);
      case DisplayCoords(number) => gate.WriteUInt8(number);
      case ApplicationRegion(procId) => gate.WriteUInt32(procId);
      case NormalizeRect(rect) => SendRect(rect, gate);
      assert gate.data == start + EncPayload(q);
    }

    /** The reply half of the question functions. */
    method ReadAnswer(q: Request, gate: Gate) returns (r: Result<Answer>)
      requires !q.IsEvent()
      modifies gate
      ensures Reads(DecAnswer(q, old(gate.data)), r, gate.data)
    {
      hide DecU8, DecText, DecU64, DecRect, DecRegion, UnionOf;
      if q.UserInfo? {
        var desktopName :- gate.ReadUTF8();
        var userName :- gate.ReadUTF8();
        r := Ok(Info(desktopName, userName));
      } else if q.WindowCoords? {
        r := ReadWindowCoords(gate);
      } else if q.WindowHandle? {
        var hwnd :- gate.ReadUInt64();
        r := Ok(Handle(hwnd));
      } else if q.ApplicationRegion? {
        var region, rects := ReadRegion(gate);
        r := if region.Ok? then Ok(Windows(region.value)) else Err(region.error);
      } else {
        var rect :- ReadRect(gate);
        r := Ok(Coords(rect));
      }
    }

    method ReadWindowCoords(gate: Gate) returns (r: Result<Answer>)
      modifies gate
      ensures Reads(DecWindowCoords(old(gate.data)), r, gate.data)
    {
      hide DecU8, DecText, DecRect;
      var isBrokenWindow :- gate.ReadUInt8();
      if isBrokenWindow == 0 {
        var rect :- ReadRect(gate);
        r := Ok(Coords(rect));
      } else {
        var errMess :- gate.ReadUTF8();
        r := Ok(BrokenWindow(errMess));
      }
    }
  }

  // ---------- Both together ----------

  /** The dispatcher reads the code and calls the handler. */
  method Dispatch(server: UserInputServer, input: Gate, output: Gate) returns (r: Result<()>)
    requires input != output
    modifies server`done, input, output
    ensures Serves(server.desktop, DecRequest(old(input.data)), old(server.Talk(input, output)),
                   server.Talk(input, output), r)
  {
    hide DecU8, DecPayload;
    var code :- input.ReadUInt8();
    r := server.OnRequest(code, input, output);
  }

  /** A question over an idle connection brings the server's answer, except for
      the coordinates of a window, for which the client waits for ever. */
  method Question(client: UserInputClient, server: UserInputServer, q: Request, there: Gate, back: Gate)
    returns (r: Result<Answer>)
    requires there != back && there.data == [] && back.data == []
    requires !q.IsEvent() && RequestFits(q)
    requires forall rects :: Lists(rects, AnswerOf(server.desktop, q)) ==>
             AnswerFits(AnswerOf(server.desktop, q), rects)
    modifies server`done, there, back
    ensures there.data == [] && server.done == old(server.done)
    ensures (q.WindowCoords? && server.desktop.window(q.hwnd).Ok?) ==> r == Err(Blocked)
    ensures !(q.WindowCoords? && server.desktop.window(q.hwnd).Ok?) ==>
              r == Ok(AnswerOf(server.desktop, q)) && back.data == []
    ensures q.UserInfo? ==> r == Ok(Info(server.desktop.names.0, server.desktop.names.1))
    ensures q.DesktopCoords? ==> r == Ok(Coords(server.desktop.primary))
    ensures q.WindowCoords? && server.desktop.window(q.hwnd).Err? ==>
              r == Ok(BrokenWindow(server.desktop.brokenMessage))
    ensures q.WindowHandle? ==> r == Ok(Handle(server.desktop.handle(q.name)))
    ensures q.DisplayCoords? ==> r == Ok(Coords(server.desktop.display(q.number)))
    ensures q.ApplicationRegion? ==> r == Ok(Windows(server.desktop.application(q.procId)))
    ensures q.NormalizeRect? ==> r == Ok(Coords(server.desktop.normalized(q.rect)))
  {
    hide EncRequest, DecRequest, RequestFits, EncAnswer, DecAnswer, AnswerFits, Lists, AnswerOf, RectAccepted;
    client.Ask(q, there);
    RequestRoundTrip(q, []);
    assert there.data == EncRequest(q) + [];
    var served := Dispatch(server, there, back);
    ghost var d := server.desktop;
    ghost var rects :| Lists(rects, AnswerOf(d, q)) && back.data == [] + EncAnswer(AnswerOf(d, q), rects);
    r := client.ReadAnswer(q, back);
    if q.WindowCoords? && d.window(q.hwnd).Ok? {
      FoundWindow(d, q, rects);
    } else {
      AnswerRoundTrip(d, q, rects, []);
      assert EncAnswer(AnswerOf(d, q), rects) + [] == [] + EncAnswer(AnswerOf(d, q), rects);
    }
    AnswerIs(d, q);
  }

  /** Which part of the desktop answers which question. */
  lemma AnswerIs(d: Desktop, q: Request)
    requires !q.IsEvent()
    ensures q.UserInfo? ==> AnswerOf(d, q) == Info(d.names.0, d.names.1)
    ensures q.DesktopCoords? ==> AnswerOf(d, q) == Coords(d.primary)
    ensures q.WindowCoords? ==>
              AnswerOf(d, q) == match d.window(q.hwnd)
                                case Ok(rect) => Coords(rect)
                                case Err(_) => BrokenWindow(d.brokenMessage)
    ensures q.WindowHandle? ==> AnswerOf(d, q) == Handle(d.handle(q.name))
    ensures q.DisplayCoords? ==> AnswerOf(d, q) == Coords(d.display(q.number))
    ensures q.ApplicationRegion? ==> AnswerOf(d, q) == Windows(d.application(q.procId))
    ensures q.NormalizeRect? ==> AnswerOf(d, q) == Coords(d.normalized(q.rect))
  {
  }

  lemma FoundWindow(d: Desktop, q: Request, rects: seq<Rect>)
    requires q.WindowCoords? && d.window(q.hwnd).Ok? && AnswerFits(AnswerOf(d, q), rects)
    ensures DecAnswer(q, [] + EncAnswer(AnswerOf(d, q), rects)) == Failed(Blocked)
  {
    hide EncAnswer, DecAnswer;
    WindowCoordsNeverArrive(d.window(q.hwnd).value, rects, q.hwnd);
    assert [] + EncAnswer(AnswerOf(d, q), rects) == EncAnswer(AnswerOf(d, q), rects);
  }
}
