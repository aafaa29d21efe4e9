/** The protocol's messages, limits and constants. */
module Messages {
  import opened Types

  const VERSION1: nat := 1
  const VERSION2: nat := 2
  const MAX_FRAME_PARTS_HARD: nat := 32
  const MAX_CONTROL_PAYLOAD_HARD: nat := 65536
  const MAX_PIXEL_PAYLOAD_HARD: nat := 16777216
  const MAX_RECTANGLES_HARD: nat := 256
  const MAX_DIMENSION_HARD: nat := 8192
  const MAX_WHEEL_CLICKS: nat := 20
  const PIXEL_BGRA8888: nat := 1
  const RAW_BGRA: nat := 1
  const ZLIB_BGRA: nat := 2
  const FRAME_HEADER_SIZE: nat := 27
  const FRAME_PART_HEADER_SIZE: nat := 31
  const RECT_METADATA_SIZE: nat := 22

  /** One encoded rectangle as it travels on the wire. */
  datatype Rectangle = Rectangle(rect: Rect, encoding: nat, pixels: seq<byte>)

  /** The logical header shared by a FRAME and by every part of a split frame. */
  datatype Header = Header(generation: nat, sequence: nat, base: nat, keyframe: bool)

  datatype Frame = Frame(header: Header, rectangles: seq<Rectangle>)

  datatype FramePart =
    FramePart(header: Header, partIndex: nat, partCount: nat, rectangles: seq<Rectangle>)

  datatype DisplayConfig =
    DisplayConfig(generation: nat, width: nat, height: nat,
                  physicalWidth: nat, physicalHeight: nat, pixelFormat: nat)

  datatype Message =
    | Auth(version: nat, token: seq<byte>)
    | ClientHello(minVersion: nat, maxVersion: nat, capabilities: nat)
    | ServerHello(version: nat, capabilities: nat)
    | Display(config: DisplayConfig)
    | WholeFrame(frame: Frame)
    | KeyframeRequest(generation: nat)
    | Key(generation: nat, inputSequence: nat, usage: nat, action: nat, modifiers: nat)
    | PointerMove(generation: nat, inputSequence: nat, x: nat, y: nat)
    | PointerButton(generation: nat, inputSequence: nat, button: nat, action: nat)
    | PointerWheel(generation: nat, inputSequence: nat, horizontal: int, vertical: int)
    | FocusLost(generation: nat, inputSequence: nat)
    | Ping(nonce: nat)
    | Pong(nonce: nat)
    | Failure(code: nat, diagnostic: seq<byte>)
    | Close(code: nat, reason: seq<byte>)
    | Part(part: FramePart)

  /** The type number each message carries in its record header. */
  function TypeOf(m: Message): nat {
    match m
    case Auth(_, _) => 1
    case ClientHello(_, _, _) => 2
    case ServerHello(_, _) => 3
    case Display(_) => 4
    case WholeFrame(_) => 5
    case KeyframeRequest(_) => 6
    case Key(_, _, _, _, _) => 7
    case PointerMove(_, _, _, _) => 8
    case PointerButton(_, _, _, _) => 9
    case PointerWheel(_, _, _, _) => 10
    case FocusLost(_, _) => 11
    case Ping(_) => 12
    case Pong(_) => 13
    case Failure(_, _) => 14
    case Close(_, _) => 15
    case Part(_) => 16
  }

  predicate UsesPixelPayload(t: nat) { t == 5 || t == 16 }

  predicate RequiresVersion2(t: nat) { t == 16 }

  datatype Limits = Limits(maxControlPayload: nat, maxPixelPayload: nat,
                           maxRectangles: nat, maxFrameParts: nat, maxDimension: nat)

  const DEFAULT_LIMITS :=
    Limits(MAX_CONTROL_PAYLOAD_HARD, MAX_PIXEL_PAYLOAD_HARD, MAX_RECTANGLES_HARD,
           MAX_FRAME_PARTS_HARD, MAX_DIMENSION_HARD)

  function Clamp(value: nat, hard: nat): nat {
    if value == 0 || value > hard then hard else value
  }

  /** A zero or oversized limit falls back to the protocol's hard cap. */
  function Bounded(l: Limits): Limits {
    Limits(Clamp(l.maxControlPayload, MAX_CONTROL_PAYLOAD_HARD),
           Clamp(l.maxPixelPayload, MAX_PIXEL_PAYLOAD_HARD),
           Clamp(l.maxRectangles, MAX_RECTANGLES_HARD),
           Clamp(l.maxFrameParts, MAX_FRAME_PARTS_HARD),
           Clamp(l.maxDimension, MAX_DIMENSION_HARD))
  }

  /** The bare geometry of a rectangle list. */
  function Rects(rs: seq<Rectangle>): (out: seq<Rect>)
    ensures |out| == |rs|
    ensures forall k :: 0 <= k < |rs| ==> out[k] == rs[k].rect
  {
    seq(|rs|, k requires 0 <= k < |rs| => rs[k].rect)
  }

  /** Marshaled bytes one rectangle contributes to a payload. */
  function RectSize(r: Rectangle): nat { RECT_METADATA_SIZE + |r.pixels| }

  function ListSize(rs: seq<Rectangle>): nat {
    if rs == [] then 0 else ListSize(rs[..|rs| - 1]) + RectSize(rs[|rs| - 1])
  }

  lemma {:induction false} ListSizeConcat(a: seq<Rectangle>, b: seq<Rectangle>)
    ensures ListSize(a + b) == ListSize(a) + ListSize(b)
    decreases |b|
  {
    if b == [] {
      assert a + b == a;
    } else {
      ListSizeConcat(a, b[..|b| - 1]);
      assert (a + b)[..|a + b| - 1] == a + b[..|b| - 1];
    }
  }
}
