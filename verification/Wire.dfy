/** The big-endian wire form of every message. Each Put writes one field in front of what
    follows it. */
module Wire {
  import opened Types
  import opened Messages

  const U16_MAX: nat := 0xFFFF
  const U32_MAX: nat := 0xFFFF_FFFF
  const U64_MAX: nat := 0xFFFF_FFFF_FFFF_FFFF

  function Put8(v: nat, tail: seq<byte>): (p: seq<byte>)
    ensures |p| == 1 + |tail|
  {
    [v % 256] + tail
  }

  function Put16(v: nat, tail: seq<byte>): (p: seq<byte>)
    ensures |p| == 2 + |tail|
  {
    [v / 256 % 256, v % 256] + tail
  }

  function Put32(v: nat, tail: seq<byte>): (p: seq<byte>)
    ensures |p| == 4 + |tail|
  {
    Put16(v / 0x1_0000, Put16(v % 0x1_0000, tail))
  }

  function Put64(v: nat, tail: seq<byte>): (p: seq<byte>)
    ensures |p| == 8 + |tail|
  {
    Put32(v / 0x1_0000_0000, Put32(v % 0x1_0000_0000, tail))
  }

  /** Two's complement. */
  function PutSigned16(v: int, tail: seq<byte>): (p: seq<byte>)
    ensures |p| == 2 + |tail|
  {
    Put16(v % 0x1_0000, tail)
  }

  function PutFlag(v: bool, tail: seq<byte>): (p: seq<byte>)
    ensures |p| == 1 + |tail|
  {
    Put8(if v then 1 else 0, tail)
  }

  function PutText(s: seq<byte>): (p: seq<byte>)
    ensures |p| == 2 + |s|
  {
    Put16(|s|, s)
  }

  function PutRectangle(r: Rectangle, tail: seq<byte>): (p: seq<byte>)
    ensures |p| == RectSize(r) + |tail|
  {
    Put32(r.rect.x, Put32(r.rect.y, Put32(r.rect.w, Put32(r.rect.h,
      Put16(r.encoding, Put32(|r.pixels|, r.pixels + tail))))))
  }

  function PutRectangles(rs: seq<Rectangle>): seq<byte> {
    if rs == [] then [] else PutRectangle(rs[0], PutRectangles(rs[1..]))
  }

  function PutHeader(h: Header, tail: seq<byte>): (p: seq<byte>)
    ensures |p| == 25 + |tail|
  {
    Put64(h.generation, Put64(h.sequence, Put64(h.base, PutFlag(h.keyframe, tail))))
  }

  /** The payload of a message. */
  function Marshal(m: Message): seq<byte> {
    match m
    case Auth(version, token) => Put16(version, token)
    case ClientHello(min, max, capabilities) => Put16(min, Put16(max, Put64(capabilities, [])))
    case ServerHello(version, capabilities) => Put16(version, Put64(capabilities, []))
    case Display(c) =>
      Put64(c.generation, Put32(c.width, Put32(c.height,
        Put32(c.physicalWidth, Put32(c.physicalHeight, Put16(c.pixelFormat, []))))))
    case WholeFrame(f) => PutHeader(f.header, Put16(|f.rectangles|, PutRectangles(f.rectangles)))
    case Part(p) =>
      PutHeader(p.header, Put16(p.partIndex, Put16(p.partCount,
        Put16(|p.rectangles|, PutRectangles(p.rectangles)))))
    case KeyframeRequest(generation) => Put64(generation, [])
    case Key(generation, sequence, usage, action, modifiers) =>
      Put64(generation, Put64(sequence, Put16(usage, Put8(action, Put8(modifiers, [])))))
    case PointerMove(generation, sequence, x, y) =>
      Put64(generation, Put64(sequence, Put32(x, Put32(y, []))))
    case PointerButton(generation, sequence, button, action) =>
      Put64(generation, Put64(sequence, Put8(button, Put8(action, []))))
    case PointerWheel(generation, sequence, horizontal, vertical) =>
      Put64(generation, Put64(sequence, PutSigned16(horizontal, PutSigned16(vertical, []))))
    case FocusLost(generation, sequence) => Put64(generation, Put64(sequence, []))
    case Ping(nonce) => Put64(nonce, [])
    case Pong(nonce) => Put64(nonce, [])
    case Failure(code, diagnostic) => Put16(code, PutText(diagnostic))
    case Close(code, reason) => Put16(code, PutText(reason))
  }

  // ----- the arithmetic sizes

  lemma {:induction false} RectanglesLength(rs: seq<Rectangle>)
    ensures |PutRectangles(rs)| == ListSize(rs)
  {
    if rs != [] {
      RectanglesLength(rs[1..]);
      ListSizeConcat([rs[0]], rs[1..]);
      assert rs == [rs[0]] + rs[1..];
      assert ListSize([rs[0]]) == ListSize([rs[0]][..0]) + RectSize(rs[0]);
    }
  }

  /** The payload size computed without marshaling is the marshaled length. */
  lemma ArithmeticSizeIsExact(f: Frame, p: FramePart)
    ensures |Marshal(WholeFrame(f))| == FRAME_HEADER_SIZE + ListSize(f.rectangles)
    ensures |Marshal(Part(p))| == FRAME_PART_HEADER_SIZE + ListSize(p.rectangles)
  {
    RectanglesLength(f.rectangles);
    RectanglesLength(p.rectangles);
  }
}
