/** Parsing payloads back, and the bijection between valid messages and payloads. */
module Codec {
  import opened Types
  import opened Messages
  import opened Wire
  import opened Validation
  import opened Raster

  /** A value and the bytes after it, or a short or impossible payload. */
  datatype Parsed<+T> = Fail | Got(value: T, rest: seq<byte>) {
    predicate IsFailure() { Fail? }

    function PropagateFailure<U>(): Parsed<U>
      requires Fail?
    {
      Fail
    }

    function Extract(): (T, seq<byte>)
      requires Got?
    {
      (value, rest)
    }
  }

  // ----- fields

  function Get8(p: seq<byte>): Parsed<nat> {
    if |p| < 1 then Fail else Got(p[0], p[1..])
  }

  function Get16(p: seq<byte>): Parsed<nat> {
    if |p| < 2 then Fail
    else
      var hi: nat, lo: nat := p[0], p[1];
      Got(hi * 256 + lo, p[2..])
  }

  function Get32(p: seq<byte>): Parsed<nat> {
    var (hi, p1) :- Get16(p);
    var (lo, p2) :- Get16(p1);
    Got(hi * 0x1_0000 + lo, p2)
  }

  function Get64(p: seq<byte>): Parsed<nat> {
    var (hi, p1) :- Get32(p);
    var (lo, p2) :- Get32(p1);
    Got(hi * 0x1_0000_0000 + lo, p2)
  }

  function GetSigned16(p: seq<byte>): Parsed<int> {
    var (v, p1) :- Get16(p);
    Got(if v >= 0x8000 then v - 0x1_0000 else v, p1)
  }

  function GetFlag(p: seq<byte>): Parsed<bool> {
    var (v, p1) :- Get8(p);
    if v > 1 then Fail else Got(v == 1, p1)
  }

  function GetBytes(p: seq<byte>, n: nat): Parsed<seq<byte>> {
    if n > |p| then Fail else Got(p[..n], p[n..])
  }

  function GetText(p: seq<byte>): Parsed<seq<byte>> {
    var (n, p1) :- Get16(p);
    GetBytes(p1, n)
  }

  lemma Field8(v: nat, p: seq<byte>)
    ensures v < 256 ==> Get8(Put8(v, p)) == Got(v, p)
    ensures Get8(p).Got? ==> Get8(p).value < 256 && Put8(Get8(p).value, Get8(p).rest) == p
  {
  }

  lemma Field16(v: nat, p: seq<byte>)
    ensures v <= U16_MAX ==> Get16(Put16(v, p)) == Got(v, p)
    ensures Get16(p).Got? ==> Get16(p).value <= U16_MAX && Put16(Get16(p).value, Get16(p).rest) == p
  {
    if |p| >= 2 {
      assert p == [p[0], p[1]] + p[2..];
    }
  }

  lemma Halves(v: nat, hi: nat, lo: nat, unit: nat)
    requires 0 < unit && lo < unit
    ensures v / unit * unit + v % unit == v
    ensures (hi * unit + lo) / unit == hi && (hi * unit + lo) % unit == lo
  {
    RowMajor(lo, hi, unit);
  }

  lemma Field32(v: nat, p: seq<byte>)
    ensures v <= U32_MAX ==> Get32(Put32(v, p)) == Got(v, p)
    ensures Get32(p).Got? ==> Get32(p).value <= U32_MAX && Put32(Get32(p).value, Get32(p).rest) == p
  {
    hide Put16, Get16;
    Field16(v / 0x1_0000, Put16(v % 0x1_0000, p));
    Field16(v % 0x1_0000, p);
    Halves(v, 0, 0, 0x1_0000);
    Field16(0, p);
    if Get16(p).Got? {
      var hi, p1 := Get16(p).value, Get16(p).rest;
      Field16(0, p1);
      if Get16(p1).Got? {
        Halves(0, hi, Get16(p1).value, 0x1_0000);
      }
    }
  }

  lemma Field64(v: nat, p: seq<byte>)
    ensures v <= U64_MAX ==> Get64(Put64(v, p)) == Got(v, p)
    ensures Get64(p).Got? ==> Get64(p).value <= U64_MAX && Put64(Get64(p).value, Get64(p).rest) == p
  {
    hide Put32, Get32;
    Field32(v / 0x1_0000_0000, Put32(v % 0x1_0000_0000, p));
    Field32(v % 0x1_0000_0000, p);
    Halves(v, 0, 0, 0x1_0000_0000);
    Field32(0, p);
    if Get32(p).Got? {
      var hi, p1 := Get32(p).value, Get32(p).rest;
      Field32(0, p1);
      if Get32(p1).Got? {
        Halves(0, hi, Get32(p1).value, 0x1_0000_0000);
      }
    }
  }

  lemma FieldSigned16(v: int, p: seq<byte>)
    ensures -0x8000 <= v < 0x8000 ==> GetSigned16(PutSigned16(v, p)) == Got(v, p)
    ensures GetSigned16(p).Got? ==> -0x8000 <= GetSigned16(p).value < 0x8000
                                    && PutSigned16(GetSigned16(p).value, GetSigned16(p).rest) == p
  {
    hide Put16, Get16;
    Field16(v % 0x1_0000, p);
    Field16(0, p);
  }

  lemma FieldFlag(v: bool, p: seq<byte>)
    ensures GetFlag(PutFlag(v, p)) == Got(v, p)
    ensures GetFlag(p).Got? ==> PutFlag(GetFlag(p).value, GetFlag(p).rest) == p
  {
    Field8(if v then 1 else 0, p);
  }

  lemma FieldText(s: seq<byte>, p: seq<byte>)
    ensures |s| <= U16_MAX ==> GetText(PutText(s)) == Got(s, [])
    ensures GetText(p).Got? && GetText(p).rest == [] ==>
              |GetText(p).value| <= U16_MAX && PutText(GetText(p).value) == p
  {
    hide Put16, Get16;
    Field16(|s|, s);
    Field16(0, p);
    assert s[..|s|] == s && s[|s|..] == [];
    if GetText(p).Got? {
      var n, q := Get16(p).value, Get16(p).rest;
      assert q[n..] == [] ==> q[..n] == q;
    }
  }

  // ----- rectangles

  predicate TypedRectangle(r: Rectangle) {
    && r.rect.x <= U32_MAX && r.rect.y <= U32_MAX && r.rect.w <= U32_MAX && r.rect.h <= U32_MAX
    && r.encoding <= U16_MAX && |r.pixels| <= U32_MAX
  }

  function GetRectangle(p: seq<byte>): Parsed<Rectangle> {
    var (x, p1) :- Get32(p);
    var (y, p2) :- Get32(p1);
    var (w, p3) :- Get32(p2);
    var (h, p4) :- Get32(p3);
    var (encoding, p5) :- Get16(p4);
    var (n, p6) :- Get32(p5);
    var (pixels, p7) :- GetBytes(p6, n);
    Got(Rectangle(Rect(x, y, w, h), encoding, pixels), p7)
  }

  function GetRectangles(p: seq<byte>, n: nat): Parsed<seq<Rectangle>>
    decreases n
  {
    if n == 0 then Got([], p)
    else
      var (r, p1) :- GetRectangle(p);
      var (rs, p2) :- GetRectangles(p1, n - 1);
      Got([r] + rs, p2)
  }

  /** The rectangle count is bounded before anything is read. */
  function GetRectangleList(p: seq<byte>, limits: Limits): Parsed<seq<Rectangle>> {
    var (n, p1) :- Get16(p);
    if n > limits.maxRectangles then Fail else GetRectangles(p1, n)
  }

  lemma PutThenGetRectangle(r: Rectangle, p: seq<byte>)
    requires TypedRectangle(r)
    ensures GetRectangle(PutRectangle(r, p)) == Got(r, p)
  {
    hide Put32, Get32, Put16, Get16;
    var q := r.pixels + p;
    assert q[..|r.pixels|] == r.pixels && q[|r.pixels|..] == p;
    var p6 := Put32(|r.pixels|, q);
    var p5 := Put16(r.encoding, p6);
    var p4 := Put32(r.rect.h, p5);
    var p3 := Put32(r.rect.w, p4);
    Field32(|r.pixels|, q);
    Field16(r.encoding, p6);
    Field32(r.rect.h, p5);
    Field32(r.rect.w, p4);
    Field32(r.rect.y, p3);
    Field32(r.rect.x, Put32(r.rect.y, p3));
  }

  lemma GetThenPutRectangle(p: seq<byte>)
    requires GetRectangle(p).Got?
    ensures TypedRectangle(GetRectangle(p).value)
    ensures PutRectangle(GetRectangle(p).value, GetRectangle(p).rest) == p
  {
    hide Put32, Get32, Put16, Get16;
    var p1 := Get32(p).rest;
    var p2 := Get32(p1).rest;
    var p3 := Get32(p2).rest;
    var p4 := Get32(p3).rest;
    var p5 := Get16(p4).rest;
    var n, p6 := Get32(p5).value, Get32(p5).rest;
    Field32(0, p);
    Field32(0, p1);
    Field32(0, p2);
    Field32(0, p3);
    Field16(0, p4);
    Field32(0, p5);
    assert p6 == p6[..n] + p6[n..];
  }

  ghost predicate TypedRectangles(rs: seq<Rectangle>) {
    forall k :: 0 <= k < |rs| ==> TypedRectangle(rs[k])
  }

  lemma {:induction false} PutThenGetRectangles(rs: seq<Rectangle>)
    requires TypedRectangles(rs)
    ensures GetRectangles(PutRectangles(rs), |rs|) == Got(rs, [])
  {
    hide GetRectangle, PutRectangle, TypedRectangle;
    if rs != [] {
      PutThenGetRectangle(rs[0], PutRectangles(rs[1..]));
      PutThenGetRectangles(rs[1..]);
      assert rs == [rs[0]] + rs[1..];
    }
  }

  lemma {:induction false} GetThenPutRectangles(p: seq<byte>, n: nat)
    requires GetRectangles(p, n).Got? && GetRectangles(p, n).rest == []
    ensures var rs := GetRectangles(p, n).value;
            |rs| == n && TypedRectangles(rs) && PutRectangles(rs) == p
    decreases n
  {
    hide GetRectangle, PutRectangle, TypedRectangle;
    if n > 0 {
      GetThenPutRectangle(p);
      var r, p1 := GetRectangle(p).value, GetRectangle(p).rest;
      GetThenPutRectangles(p1, n - 1);
      var rs := GetRectangles(p1, n - 1).value;
      assert ([r] + rs)[1..] == rs;
    }
  }

  lemma RectangleLists(rs: seq<Rectangle>, p: seq<byte>, limits: Limits)
    ensures TypedRectangles(rs) && |rs| <= limits.maxRectangles && |rs| <= U16_MAX ==>
              GetRectangleList(Put16(|rs|, PutRectangles(rs)), limits) == Got(rs, [])
    ensures GetRectangleList(p, limits).Got? && GetRectangleList(p, limits).rest == [] ==>
              var rs' := GetRectangleList(p, limits).value;
              |rs'| <= U16_MAX && TypedRectangles(rs') && Put16(|rs'|, PutRectangles(rs')) == p
  {
    hide Put16, Get16, GetRectangle, PutRectangle, TypedRectangle, PutRectangles;
    Field16(|rs|, PutRectangles(rs));
    Field16(0, p);
    if TypedRectangles(rs) {
      PutThenGetRectangles(rs);
    }
    if GetRectangleList(p, limits).Got? && GetRectangleList(p, limits).rest == [] {
      GetThenPutRectangles(Get16(p).rest, Get16(p).value);
    }
  }

  function GetHeader(p: seq<byte>): Parsed<Header> {
    var (generation, p1) :- Get64(p);
    var (sequence, p2) :- Get64(p1);
    var (base, p3) :- Get64(p2);
    var (keyframe, p4) :- GetFlag(p3);
    Got(Header(generation, sequence, base, keyframe), p4)
  }

  predicate TypedHeader(h: Header) {
    h.generation <= U64_MAX && h.sequence <= U64_MAX && h.base <= U64_MAX
  }

  lemma FieldHeader(h: Header, p: seq<byte>)
    ensures TypedHeader(h) ==> GetHeader(PutHeader(h, p)) == Got(h, p)
    ensures GetHeader(p).Got? ==>
              TypedHeader(GetHeader(p).value) && PutHeader(GetHeader(p).value, GetHeader(p).rest) == p
  {
    hide Put64, Get64, PutFlag, GetFlag;
    var q3 := PutFlag(h.keyframe, p);
    var q2 := Put64(h.base, q3);
    FieldFlag(h.keyframe, p);
    Field64(h.base, q3);
    Field64(h.sequence, q2);
    Field64(h.generation, Put64(h.sequence, q2));
    if GetHeader(p).Got? {
      var p1 := Get64(p).rest;
      var p2 := Get64(p1).rest;
      var p3 := Get64(p2).rest;
      Field64(0, p);
      Field64(0, p1);
      Field64(0, p2);
      FieldFlag(false, p3);
    }
  }

  // ----- one reader per message type

  function GetClientHello(p: seq<byte>): Parsed<Message> {
    var (minVersion, p1) :- Get16(p);
    var (maxVersion, p2) :- Get16(p1);
    var (capabilities, p3) :- Get64(p2);
    Got(ClientHello(minVersion, maxVersion, capabilities), p3)
  }

  function GetServerHello(p: seq<byte>): Parsed<Message> {
    var (version, p1) :- Get16(p);
    var (capabilities, p2) :- Get64(p1);
    Got(ServerHello(version, capabilities), p2)
  }

  function GetKeyframeRequest(p: seq<byte>): Parsed<Message> {
    var (generation, p1) :- Get64(p);
    Got(KeyframeRequest(generation), p1)
  }

  function GetKey(p: seq<byte>): Parsed<Message> {
    var (generation, p1) :- Get64(p);
    var (inputSequence, p2) :- Get64(p1);
    var (usage, p3) :- Get16(p2);
    var (action, p4) :- Get8(p3);
    var (modifiers, p5) :- Get8(p4);
    Got(Key(generation, inputSequence, usage, action, modifiers), p5)
  }

  function GetPointerMove(p: seq<byte>): Parsed<Message> {
    var (generation, p1) :- Get64(p);
    var (inputSequence, p2) :- Get64(p1);
    var (x, p3) :- Get32(p2);
    var (y, p4) :- Get32(p3);
    Got(PointerMove(generation, inputSequence, x, y), p4)
  }

  function GetPointerButton(p: seq<byte>): Parsed<Message> {
    var (generation, p1) :- Get64(p);
    var (inputSequence, p2) :- Get64(p1);
    var (button, p3) :- Get8(p2);
    var (action, p4) :- Get8(p3);
    Got(PointerButton(generation, inputSequence, button, action), p4)
  }

  function GetPointerWheel(p: seq<byte>): Parsed<Message> {
    var (generation, p1) :- Get64(p);
    var (inputSequence, p2) :- Get64(p1);
    var (horizontal, p3) :- GetSigned16(p2);
    var (vertical, p4) :- GetSigned16(p3);
    Got(PointerWheel(generation, inputSequence, horizontal, vertical), p4)
  }

  function GetFocusLost(p: seq<byte>): Parsed<Message> {
    var (generation, p1) :- Get64(p);
    var (inputSequence, p2) :- Get64(p1);
    Got(FocusLost(generation, inputSequence), p2)
  }

  function GetPing(p: seq<byte>): Parsed<Message> {
    var (nonce, p1) :- Get64(p);
    Got(Ping(nonce), p1)
  }

  function GetPong(p: seq<byte>): Parsed<Message> {
    var (nonce, p1) :- Get64(p);
    Got(Pong(nonce), p1)
  }

  function GetDisplay(p: seq<byte>): Parsed<Message> {
    var (generation, p1) :- Get64(p);
    var (width, p2) :- Get32(p1);
    var (height, p3) :- Get32(p2);
    var (physicalWidth, p4) :- Get32(p3);
    var (physicalHeight, p5) :- Get32(p4);
    var (pixelFormat, p6) :- Get16(p5);
    Got(Display(DisplayConfig(generation, width, height, physicalWidth, physicalHeight, pixelFormat)), p6)
  }

  function GetAuth(p: seq<byte>): Parsed<Message> {
    var (version, p1) :- Get16(p);
    var (token, p2) :- GetBytes(p1, 32);
    Got(Auth(version, token), p2)
  }

  function GetFailure(p: seq<byte>): Parsed<Message> {
    var (code, p1) :- Get16(p);
    var (diagnostic, p2) :- GetText(p1);
    Got(Failure(code, diagnostic), p2)
  }

  function GetClose(p: seq<byte>): Parsed<Message> {
    var (code, p1) :- Get16(p);
    var (reason, p2) :- GetText(p1);
    Got(Close(code, reason), p2)
  }

  function GetFrame(p: seq<byte>, limits: Limits): Parsed<Message> {
    var (header, p1) :- GetHeader(p);
    var (rectangles, p2) :- GetRectangleList(p1, limits);
    Got(WholeFrame(Frame(header, rectangles)), p2)
  }

  function GetPart(p: seq<byte>, limits: Limits): Parsed<Message> {
    var (header, p1) :- GetHeader(p);
    var (partIndex, p2) :- Get16(p1);
    var (partCount, p3) :- Get16(p2);
    var (rectangles, p4) :- GetRectangleList(p3, limits);
    Got(Part(FramePart(header, partIndex, partCount, rectangles)), p4)
  }

  /** Reads the payload of message type t. */
  function Parse(t: nat, p: seq<byte>, limits: Limits): Parsed<Message>
    requires 1 <= t <= 16
  {
    match t
    case 1 => GetAuth(p)
    case 2 => GetClientHello(p)
    case 3 => GetServerHello(p)
    case 4 => GetDisplay(p)
    case 5 => GetFrame(p, limits)
    case 6 => GetKeyframeRequest(p)
    case 7 => GetKey(p)
    case 8 => GetPointerMove(p)
    case 9 => GetPointerButton(p)
    case 10 => GetPointerWheel(p)
    case 11 => GetFocusLost(p)
    case 12 => GetPing(p)
    case 13 => GetPong(p)
    case 14 => GetFailure(p)
    case 15 => GetClose(p)
    case _ => GetPart(p, limits)
  }

  function Unmarshal(t: nat, p: seq<byte>, limits: Limits): Result<Message, Error> {
    if t < 1 || t > 16 then Err(UnknownType)
    else match Parse(t, p, limits)
         case Fail => Err(Malformed)
         case Got(m, rest) =>
           if rest != [] then Err(Malformed)
           else if MessageError(m, limits).Some? then Err(MessageError(m, limits).value)
           else Ok(m)
  }

  /** The widths the message's fields have in memory. */
  ghost predicate Typed(m: Message) {
    match m
    case Auth(version, token) => version <= U16_MAX && |token| == 32
    case ClientHello(min, max, capabilities) => min <= U16_MAX && max <= U16_MAX && capabilities <= U64_MAX
    case ServerHello(version, capabilities) => version <= U16_MAX && capabilities <= U64_MAX
    case Display(c) =>
      c.generation <= U64_MAX && c.width <= U32_MAX && c.height <= U32_MAX
      && c.physicalWidth <= U32_MAX && c.physicalHeight <= U32_MAX && c.pixelFormat <= U16_MAX
    case WholeFrame(f) =>
      TypedHeader(f.header) && |f.rectangles| <= U16_MAX && TypedRectangles(f.rectangles)
    case Part(p) =>
      TypedHeader(p.header) && p.partIndex <= U16_MAX && p.partCount <= U16_MAX
      && |p.rectangles| <= U16_MAX && TypedRectangles(p.rectangles)
    case KeyframeRequest(generation) => generation <= U64_MAX
    case Key(generation, sequence, usage, action, modifiers) =>
      generation <= U64_MAX && sequence <= U64_MAX && usage <= U16_MAX && action < 256 && modifiers < 256
    case PointerMove(generation, sequence, x, y) =>
      generation <= U64_MAX && sequence <= U64_MAX && x <= U32_MAX && y <= U32_MAX
    case PointerButton(generation, sequence, button, action) =>
      generation <= U64_MAX && sequence <= U64_MAX && button < 256 && action < 256
    case PointerWheel(generation, sequence, horizontal, vertical) =>
      generation <= U64_MAX && sequence <= U64_MAX
      && -0x8000 <= horizontal < 0x8000 && -0x8000 <= vertical < 0x8000
    case FocusLost(generation, sequence) => generation <= U64_MAX && sequence <= U64_MAX
    case Ping(nonce) => nonce <= U64_MAX
    case Pong(nonce) => nonce <= U64_MAX
    case Failure(code, diagnostic) => code <= U16_MAX && |diagnostic| <= U16_MAX
    case Close(code, reason) => code <= U16_MAX && |reason| <= U16_MAX
  }

  // ----- each message type reads back what was written, and nothing else

  /** Writing then reading gives the message. */
  ghost predicate ReadsBack(m: Message, limits: Limits) {
    Typed(m) && (m.WholeFrame? ==> |m.frame.rectangles| <= limits.maxRectangles)
    && (m.Part? ==> |m.part.rectangles| <= limits.maxRectangles) ==>
      Parse(TypeOf(m), Marshal(m), limits) == Got(m, [])
  }

  /** Reading m's type to the end, then writing, gives the bytes. */
  ghost predicate WritesBack(m: Message, p: seq<byte>, limits: Limits) {
    var r := Parse(TypeOf(m), p, limits);
    r.Got? && r.rest == [] ==> Typed(r.value) && TypeOf(r.value) == TypeOf(m) && Marshal(r.value) == p
  }

  ghost predicate Faithful(m: Message, p: seq<byte>, limits: Limits) {
    ReadsBack(m, limits) && WritesBack(m, p, limits)
  }

  lemma ClientHelloFaithful(m: Message, p: seq<byte>, limits: Limits)
    requires m.ClientHello?
    ensures Faithful(m, p, limits)
  {
    hide Put8, Get8, Put16, Get16, Put32, Get32, Put64, Get64, PutSigned16, GetSigned16;
    var q2 := Put64(m.capabilities, []);
    var q1 := Put16(m.maxVersion, q2);
    Field16(m.minVersion, q1);
    Field16(m.maxVersion, q2);
    Field64(m.capabilities, []);
    Field16(0, p);
    var r1 := Get16(p);
    var p1 := if r1.Got? then r1.rest else [];
    Field16(0, p1);
    var r2 := Get16(p1);
    var p2 := if r2.Got? then r2.rest else [];
    Field64(0, p2);
  }

  lemma ServerHelloFaithful(m: Message, p: seq<byte>, limits: Limits)
    requires m.ServerHello?
    ensures Faithful(m, p, limits)
  {
    hide Put8, Get8, Put16, Get16, Put32, Get32, Put64, Get64, PutSigned16, GetSigned16;
    var q1 := Put64(m.capabilities, []);
    Field16(m.version, q1);
    Field64(m.capabilities, []);
    Field16(0, p);
    var r1 := Get16(p);
    var p1 := if r1.Got? then r1.rest else [];
    Field64(0, p1);
  }

  lemma KeyframeRequestFaithful(m: Message, p: seq<byte>, limits: Limits)
    requires m.KeyframeRequest?
    ensures Faithful(m, p, limits)
  {
    hide Put8, Get8, Put16, Get16, Put32, Get32, Put64, Get64, PutSigned16, GetSigned16;
    Field64(m.generation, []);
    Field64(0, p);
  }

  lemma KeyFaithful(m: Message, p: seq<byte>, limits: Limits)
    requires m.Key?
    ensures Faithful(m, p, limits)
  {
    hide Put8, Get8, Put16, Get16, Put32, Get32, Put64, Get64, PutSigned16, GetSigned16;
    var q4 := Put8(m.modifiers, []);
    var q3 := Put8(m.action, q4);
    var q2 := Put16(m.usage, q3);
    var q1 := Put64(m.inputSequence, q2);
    Field64(m.generation, q1);
    Field64(m.inputSequence, q2);
    Field16(m.usage, q3);
    Field8(m.action, q4);
    Field8(m.modifiers, []);
    Field64(0, p);
    var r1 := Get64(p);
    var p1 := if r1.Got? then r1.rest else [];
    Field64(0, p1);
    var r2 := Get64(p1);
    var p2 := if r2.Got? then r2.rest else [];
    Field16(0, p2);
    var r3 := Get16(p2);
    var p3 := if r3.Got? then r3.rest else [];
    Field8(0, p3);
    var r4 := Get8(p3);
    var p4 := if r4.Got? then r4.rest else [];
    Field8(0, p4);
  }

  lemma PointerMoveFaithful(m: Message, p: seq<byte>, limits: Limits)
    requires m.PointerMove?
    ensures Faithful(m, p, limits)
  {
    hide Put8, Get8, Put16, Get16, Put32, Get32, Put64, Get64, PutSigned16, GetSigned16;
    var q3 := Put32(m.y, []);
    var q2 := Put32(m.x, q3);
    var q1 := Put64(m.inputSequence, q2);
    Field64(m.generation, q1);
    Field64(m.inputSequence, q2);
    Field32(m.x, q3);
    Field32(m.y, []);
    Field64(0, p);
    var r1 := Get64(p);
    var p1 := if r1.Got? then r1.rest else [];
    Field64(0, p1);
    var r2 := Get64(p1);
    var p2 := if r2.Got? then r2.rest else [];
    Field32(0, p2);
    var r3 := Get32(p2);
    var p3 := if r3.Got? then r3.rest else [];
    Field32(0, p3);
  }

  lemma PointerButtonFaithful(m: Message, p: seq<byte>, limits: Limits)
    requires m.PointerButton?
    ensures Faithful(m, p, limits)
  {
    hide Put8, Get8, Put16, Get16, Put32, Get32, Put64, Get64, PutSigned16, GetSigned16;
    var q3 := Put8(m.action, []);
    var q2 := Put8(m.button, q3);
    var q1 := Put64(m.inputSequence, q2);
    Field64(m.generation, q1);
    Field64(m.inputSequence, q2);
    Field8(m.button, q3);
    Field8(m.action, []);
    Field64(0, p);
    var r1 := Get64(p);
    var p1 := if r1.Got? then r1.rest else [];
    Field64(0, p1);
    var r2 := Get64(p1);
    var p2 := if r2.Got? then r2.rest else [];
    Field8(0, p2);
    var r3 := Get8(p2);
    var p3 := if r3.Got? then r3.rest else [];
    Field8(0, p3);
  }

  lemma PointerWheelFaithful(m: Message, p: seq<byte>, limits: Limits)
    requires m.PointerWheel?
    ensures Faithful(m, p, limits)
  {
    hide Put8, Get8, Put16, Get16, Put32, Get32, Put64, Get64, PutSigned16, GetSigned16;
    var q3 := PutSigned16(m.vertical, []);
    var q2 := PutSigned16(m.horizontal, q3);
    var q1 := Put64(m.inputSequence, q2);
    Field64(m.generation, q1);
    Field64(m.inputSequence, q2);
    FieldSigned16(m.horizontal, q3);
    FieldSigned16(m.vertical, []);
    Field64(0, p);
    var r1 := Get64(p);
    var p1 := if r1.Got? then r1.rest else [];
    Field64(0, p1);
    var r2 := Get64(p1);
    var p2 := if r2.Got? then r2.rest else [];
    FieldSigned16(0, p2);
    var r3 := GetSigned16(p2);
    var p3 := if r3.Got? then r3.rest else [];
    FieldSigned16(0, p3);
  }

  lemma FocusLostFaithful(m: Message, p: seq<byte>, limits: Limits)
    requires m.FocusLost?
    ensures Faithful(m, p, limits)
  {
    hide Put8, Get8, Put16, Get16, Put32, Get32, Put64, Get64, PutSigned16, GetSigned16;
    var q1 := Put64(m.inputSequence, []);
    Field64(m.generation, q1);
    Field64(m.inputSequence, []);
    Field64(0, p);
    var r1 := Get64(p);
    var p1 := if r1.Got? then r1.rest else [];
    Field64(0, p1);
  }

  lemma PingFaithful(m: Message, p: seq<byte>, limits: Limits)
    requires m.Ping?
    ensures Faithful(m, p, limits)
  {
    hide Put8, Get8, Put16, Get16, Put32, Get32, Put64, Get64, PutSigned16, GetSigned16;
    Field64(m.nonce, []);
    Field64(0, p);
  }

  lemma PongFaithful(m: Message, p: seq<byte>, limits: Limits)
    requires m.Pong?
    ensures Faithful(m, p, limits)
  {
    hide Put8, Get8, Put16, Get16, Put32, Get32, Put64, Get64, PutSigned16, GetSigned16;
    Field64(m.nonce, []);
    Field64(0, p);
  }

  lemma DisplayReadsBack(m: Message, limits: Limits)
    requires m.Display?
    ensures ReadsBack(m, limits)
  {
    hide Put8, Get8, Put16, Get16, Put32, Get32, Put64, Get64, PutSigned16, GetSigned16;
    var q5 := Put16(m.config.pixelFormat, []);
    var q4 := Put32(m.config.physicalHeight, q5);
    var q3 := Put32(m.config.physicalWidth, q4);
    var q2 := Put32(m.config.height, q3);
    var q1 := Put32(m.config.width, q2);
    Field64(m.config.generation, q1);
    Field32(m.config.width, q2);
    Field32(m.config.height, q3);
    Field32(m.config.physicalWidth, q4);
    Field32(m.config.physicalHeight, q5);
    Field16(m.config.pixelFormat, []);
  }

  lemma DisplayWritesBack(m: Message, p: seq<byte>, limits: Limits)
    requires m.Display?
    ensures WritesBack(m, p, limits)
  {
    hide Put8, Get8, Put16, Get16, Put32, Get32, Put64, Get64, PutSigned16, GetSigned16;
    Field64(0, p);
    var r1 := Get64(p);
    var p1 := if r1.Got? then r1.rest else [];
    Field32(0, p1);
    var r2 := Get32(p1);
    var p2 := if r2.Got? then r2.rest else [];
    Field32(0, p2);
    var r3 := Get32(p2);
    var p3 := if r3.Got? then r3.rest else [];
    Field32(0, p3);
    var r4 := Get32(p3);
    var p4 := if r4.Got? then r4.rest else [];
    Field32(0, p4);
    var r5 := Get32(p4);
    var p5 := if r5.Got? then r5.rest else [];
    Field16(0, p5);
  }

  lemma DisplayFaithful(m: Message, p: seq<byte>, limits: Limits)
    requires m.Display?
    ensures Faithful(m, p, limits)
  {
    hide ReadsBack, WritesBack;
    DisplayReadsBack(m, limits);
    DisplayWritesBack(m, p, limits);
  }

  lemma AuthFaithful(m: Message, p: seq<byte>, limits: Limits)
    requires m.Auth?
    ensures Faithful(m, p, limits)
  {
    hide Put16, Get16;
    Field16(m.version, m.token);
    Field16(0, p);
    assert |m.token| == 32 ==> m.token[..32] == m.token && m.token[32..] == [];
    if Get16(p).Got? {
      var q := Get16(p).rest;
      assert |q| >= 32 && q[32..] == [] ==> q[..32] == q;
    }
  }

  lemma FailureFaithful(m: Message, p: seq<byte>, limits: Limits)
    requires m.Failure? || m.Close?
    ensures Faithful(m, p, limits)
  {
    hide Put16, Get16, PutText, GetText;
    var code, text := if m.Failure? then m.code else m.code, if m.Failure? then m.diagnostic else m.reason;
    Field16(code, PutText(text));
    FieldText(text, []);
    Field16(0, p);
    if Get16(p).Got? {
      FieldText([], Get16(p).rest);
    }
  }

  lemma FrameFaithful(m: Message, p: seq<byte>, limits: Limits)
    requires m.WholeFrame?
    ensures Faithful(m, p, limits)
  {
    hide Put16, PutHeader, GetHeader, GetRectangleList, PutRectangles, TypedRectangles;
    var rs := m.frame.rectangles;
    FieldHeader(m.frame.header, Put16(|rs|, PutRectangles(rs)));
    FieldHeader(m.frame.header, p);
    var rest := if GetHeader(p).Got? then GetHeader(p).rest else [];
    RectangleLists(rs, rest, limits);
  }

  lemma PartReadsBack(m: Message, limits: Limits)
    requires m.Part?
    ensures ReadsBack(m, limits)
  {
    hide Put16, Get16, PutHeader, GetHeader, GetRectangleList, PutRectangles, TypedRectangles;
    var rs := m.part.rectangles;
    var q3 := Put16(|rs|, PutRectangles(rs));
    var q2 := Put16(m.part.partCount, q3);
    Field16(m.part.partCount, q3);
    Field16(m.part.partIndex, q2);
    FieldHeader(m.part.header, Put16(m.part.partIndex, q2));
    RectangleLists(rs, [], limits);
  }

  lemma PartWritesBack(m: Message, p: seq<byte>, limits: Limits)
    requires m.Part?
    ensures WritesBack(m, p, limits)
  {
    hide Put16, Get16, PutHeader, GetHeader, GetRectangleList, PutRectangles, TypedRectangles;
    FieldHeader(m.part.header, p);
    var p1 := if GetHeader(p).Got? then GetHeader(p).rest else [];
    Field16(0, p1);
    var p2 := if Get16(p1).Got? then Get16(p1).rest else [];
    Field16(0, p2);
    var p3 := if Get16(p2).Got? then Get16(p2).rest else [];
    RectangleLists(m.part.rectangles, p3, limits);
  }

  lemma PartFaithful(m: Message, p: seq<byte>, limits: Limits)
    requires m.Part?
    ensures Faithful(m, p, limits)
  {
    hide ReadsBack, WritesBack;
    PartReadsBack(m, limits);
    PartWritesBack(m, p, limits);
  }

  lemma AllFaithful(m: Message, p: seq<byte>, limits: Limits)
    ensures Faithful(m, p, limits)
  {
    hide Faithful;
    match m
    case Auth(_, _) => AuthFaithful(m, p, limits);
    case ClientHello(_, _, _) => ClientHelloFaithful(m, p, limits);
    case ServerHello(_, _) => ServerHelloFaithful(m, p, limits);
    case Display(_) => DisplayFaithful(m, p, limits);
    case WholeFrame(_) => FrameFaithful(m, p, limits);
    case Part(_) => PartFaithful(m, p, limits);
    case KeyframeRequest(_) => KeyframeRequestFaithful(m, p, limits);
    case Key(_, _, _, _, _) => KeyFaithful(m, p, limits);
    case PointerMove(_, _, _, _) => PointerMoveFaithful(m, p, limits);
    case PointerButton(_, _, _, _) => PointerButtonFaithful(m, p, limits);
    case PointerWheel(_, _, _, _) => PointerWheelFaithful(m, p, limits);
    case FocusLost(_, _) => FocusLostFaithful(m, p, limits);
    case Ping(_) => PingFaithful(m, p, limits);
    case Pong(_) => PongFaithful(m, p, limits);
    case Failure(_, _) => FailureFaithful(m, p, limits);
    case Close(_, _) => FailureFaithful(m, p, limits);
  }

  // ----- the bijection

  /** Every valid message survives the wire. */
  lemma UnmarshalOfMarshal(m: Message, limits: Limits)
    requires Typed(m) && limits == Bounded(limits) && MessageError(m, limits) == None
    ensures Unmarshal(TypeOf(m), Marshal(m), limits) == Ok(m)
  {
    hide Parse, Marshal, Bounded;
    AllFaithful(m, [], limits);
  }

  /** A message of each type, to speak about its payloads. */
  function Sample(t: nat): (m: Message)
    requires 1 <= t <= 16
    ensures TypeOf(m) == t
  {
    var h := Header(0, 0, 0, false);
    match t
    case 1 => Auth(0, [])
    case 2 => ClientHello(0, 0, 0)
    case 3 => ServerHello(0, 0)
    case 4 => Display(DisplayConfig(0, 0, 0, 0, 0, 0))
    case 5 => WholeFrame(Frame(h, []))
    case 6 => KeyframeRequest(0)
    case 7 => Key(0, 0, 0, 0, 0)
    case 8 => PointerMove(0, 0, 0, 0)
    case 9 => PointerButton(0, 0, 0, 0)
    case 10 => PointerWheel(0, 0, 0, 0)
    case 11 => FocusLost(0, 0)
    case 12 => Ping(0)
    case 13 => Pong(0)
    case 14 => Failure(0, [])
    case 15 => Close(0, [])
    case _ => Part(FramePart(h, 0, 0, []))
  }

  /** Every accepted payload is the marshaled form of the message it yields: no two
      payloads of a type mean the same message. */
  lemma MarshalOfUnmarshal(t: nat, p: seq<byte>, limits: Limits)
    requires Unmarshal(t, p, limits).Ok?
    ensures var m := Unmarshal(t, p, limits).value;
            Typed(m) && TypeOf(m) == t && Marshal(m) == p && MessageError(m, limits) == None
  {
    hide Parse, Marshal;
    AllFaithful(Sample(t), p, limits);
  }

  // ----- the rectangle loop

  method ReadRectangles(p: seq<byte>, n: nat, limits: Limits) returns (r: Parsed<seq<Rectangle>>)
    ensures r == if n > limits.maxRectangles then Fail else GetRectangles(p, n)
  {
    hide GetRectangle;
    if n > limits.maxRectangles {
      return Fail;
    }
    var rectangles: seq<Rectangle> := [];
    var rest := p;
    assert GetRectangles(p, n).Got? ==> [] + GetRectangles(p, n).value == GetRectangles(p, n).value;
    for i := 0 to n
      invariant GetRectangles(p, n) == match GetRectangles(rest, n - i)
                                       case Fail => Fail
                                       case Got(more, after) => Got(rectangles + more, after)
    {
      var q := GetRectangle(rest);
      if q.Fail? {
        return Fail;
      }
      GetRectanglesStep(rest, n - i, rectangles);
      rectangles := rectangles + [q.value];
      rest := q.rest;
    }
    assert rectangles + [] == rectangles;
    return Got(rectangles, rest);
  }

  lemma GetRectanglesStep(p: seq<byte>, n: nat, before: seq<Rectangle>)
    requires 0 < n && GetRectangle(p).Got?
    ensures var q := GetRectangle(p);
            match GetRectangles(p, n)
            case Fail => GetRectangles(q.rest, n - 1).Fail?
            case Got(all, after) =>
              GetRectangles(q.rest, n - 1).Got? && GetRectangles(q.rest, n - 1).rest == after
              && before + all == before + [q.value] + GetRectangles(q.rest, n - 1).value
  {
    hide GetRectangle;
  }
}
