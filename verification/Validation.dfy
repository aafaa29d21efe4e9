/** What the encoder, the decoder and the framebuffer all accept as a message. */
module Validation {
  import opened Types
  import opened Geometry
  import opened Messages
  import opened Wire

  const SENTINEL: nat := 0xFFFF_FFFF_FFFF_FFFF

  // ----- frames and parts

  function HeaderError(h: Header, count: nat, limits: Limits): Option<Error> {
    if h.generation == 0 || h.sequence == 0 || count == 0 then Some(Malformed)
    else if (h.keyframe && h.base != 0) || (!h.keyframe && h.base == 0) || h.base >= h.sequence then
      Some(Malformed)
    else if count > limits.maxRectangles then Some(MessageTooLarge)
    else None
  }

  function RectangleError(r: Rectangle, limits: Limits): Option<Error> {
    var pixels := r.rect.w * r.rect.h * 4;
    if r.rect.w == 0 || r.rect.h == 0 || r.rect.x >= limits.maxDimension || r.rect.y >= limits.maxDimension
       || r.rect.w > limits.maxDimension - r.rect.x || r.rect.h > limits.maxDimension - r.rect.y then
      Some(Malformed)
    else if r.encoding != RAW_BGRA && r.encoding != ZLIB_BGRA then Some(Malformed)
    else if pixels > limits.maxPixelPayload then Some(MessageTooLarge)
    else if r.encoding == RAW_BGRA && |r.pixels| != pixels then Some(Malformed)
    else if r.encoding == ZLIB_BGRA && |r.pixels| == 0 then Some(Malformed)
    else None
  }

  predicate OverlapsEarlier(rs: seq<Rectangle>, i: nat)
    requires i < |rs|
  {
    exists j :: 0 <= j < i && Overlaps(rs[i].rect, rs[j].rect)
  }

  /** The first error the scan over rs[from..] meets. */
  function ListError(rs: seq<Rectangle>, from: nat, limits: Limits): Option<Error>
    requires from <= |rs|
    decreases |rs| - from
  {
    if from == |rs| then None
    else if RectangleError(rs[from], limits).Some? then RectangleError(rs[from], limits)
    else if OverlapsEarlier(rs, from) then Some(Malformed)
    else ListError(rs, from + 1, limits)
  }

  function FrameError(f: Frame, l: Limits): Option<Error> {
    var limits := Bounded(l);
    var header := HeaderError(f.header, |f.rectangles|, limits);
    if header.Some? then header
    else
      var list := ListError(f.rectangles, 0, limits);
      if list.Some? then list
      else if FRAME_HEADER_SIZE + ListSize(f.rectangles) > limits.maxPixelPayload then Some(MessageTooLarge)
      else None
  }

  function PartError(p: FramePart, l: Limits): Option<Error> {
    var limits := Bounded(l);
    var header := HeaderError(p.header, |p.rectangles|, limits);
    if header.Some? then header
    else if p.partCount < 2 || p.partCount > limits.maxFrameParts || p.partIndex >= p.partCount then
      Some(Malformed)
    else
      var list := ListError(p.rectangles, 0, limits);
      if list.Some? then list
      else if FRAME_PART_HEADER_SIZE + ListSize(p.rectangles) > limits.maxPixelPayload then
        Some(MessageTooLarge)
      else None
  }

  function DisplayError(c: DisplayConfig, l: Limits): Option<Error> {
    var limits := Bounded(l);
    if c.generation == 0 || c.width == 0 || c.height == 0 || c.width > limits.maxDimension
       || c.height > limits.maxDimension || c.pixelFormat != PIXEL_BGRA8888 then Some(Malformed)
    else if |Marshal(Display(c))| > limits.maxControlPayload then Some(MessageTooLarge)
    else None
  }

  // ----- what acceptance means

  predicate ValidHeader(h: Header) {
    && 0 < h.generation
    && h.base < h.sequence
    && (h.keyframe <==> h.base == 0)
  }

  predicate ValidRectangle(r: Rectangle, limits: Limits) {
    && InBounds(r.rect, limits.maxDimension, limits.maxDimension)
    && Area(r.rect) * 4 <= limits.maxPixelPayload
    && (|| (r.encoding == RAW_BGRA && |r.pixels| == Area(r.rect) * 4)
        || (r.encoding == ZLIB_BGRA && r.pixels != []))
  }

  ghost predicate ValidList(rs: seq<Rectangle>, limits: Limits) {
    && (forall k :: 0 <= k < |rs| ==> ValidRectangle(rs[k], limits))
    && Disjoint(Rects(rs))
  }

  lemma {:induction false} ListErrorMeaning(rs: seq<Rectangle>, from: nat, limits: Limits)
    requires from <= |rs|
    ensures ListError(rs, from, limits) == None
            <==> && (forall k :: from <= k < |rs| ==> ValidRectangle(rs[k], limits))
                 && (forall j, k :: 0 <= j < k < |rs| && from <= k ==> !Overlaps(rs[j].rect, rs[k].rect))
    decreases |rs| - from
  {
    if from < |rs| {
      ListErrorMeaning(rs, from + 1, limits);
      assert ValidRectangle(rs[from], limits) <==> RectangleError(rs[from], limits) == None;
      assert OverlapsEarlier(rs, from)
        <==> exists j :: 0 <= j < from && Overlaps(rs[j].rect, rs[from].rect);
    }
  }

  /** A rectangle list passes exactly when each rectangle is well formed and no two overlap. */
  lemma ValidListAccepted(rs: seq<Rectangle>, limits: Limits)
    ensures ListError(rs, 0, limits) == None <==> ValidList(rs, limits)
  {
    ListErrorMeaning(rs, 0, limits);
    var g := Rects(rs);
    if ValidList(rs, limits) {
      forall j, k | 0 <= j < k < |rs|
        ensures !Overlaps(rs[j].rect, rs[k].rect)
      {
        assert !Overlaps(g[j], g[k]);
      }
    }
  }

  // ----- the scanning code

  method ValidateRectangles(rs: seq<Rectangle>, limits: Limits) returns (err: Option<Error>)
    ensures err == ListError(rs, 0, limits)
    ensures err == None <==> ValidList(rs, limits)
  {
    ValidListAccepted(rs, limits);
    for i := 0 to |rs|
      invariant ListError(rs, 0, limits) == ListError(rs, i, limits)
    {
      var r := rs[i].rect;
      if r.w == 0 || r.h == 0 || r.x >= limits.maxDimension || r.y >= limits.maxDimension
         || r.w > limits.maxDimension - r.x || r.h > limits.maxDimension - r.y {
        return Some(Malformed);
      }
      if rs[i].encoding != RAW_BGRA && rs[i].encoding != ZLIB_BGRA {
        return Some(Malformed);
      }
      var pixels := r.w * r.h * 4;
      if pixels > limits.maxPixelPayload {
        return Some(MessageTooLarge);
      }
      if rs[i].encoding == RAW_BGRA && |rs[i].pixels| != pixels {
        return Some(Malformed);
      }
      if rs[i].encoding == ZLIB_BGRA && |rs[i].pixels| == 0 {
        return Some(Malformed);
      }
      for j := 0 to i
        invariant forall j' :: 0 <= j' < j ==> !Overlaps(r, rs[j'].rect)
      {
        if Overlaps(r, rs[j].rect) {
          return Some(Malformed);
        }
      }
    }
    return None;
  }

  /** The arithmetic payload size, saturating instead of wrapping at 64 bits. */
  method RectListPayloadSize(headerSize: nat, rs: seq<Rectangle>) returns (size: nat)
    requires headerSize <= SENTINEL
    ensures size == if headerSize + ListSize(rs) <= SENTINEL then headerSize + ListSize(rs) else SENTINEL
  {
    size := headerSize;
    for i := 0 to |rs|
      invariant size == headerSize + ListSize(rs[..i]) <= SENTINEL
    {
      assert rs[..i + 1][..i] == rs[..i];
      var increment := RECT_METADATA_SIZE + |rs[i].pixels|;
      if increment > SENTINEL - size {
        ListSizeConcat(rs[..i + 1], rs[i + 1..]);
        assert rs == rs[..i + 1] + rs[i + 1..];
        return SENTINEL;
      }
      size := size + increment;
    }
    assert rs[..|rs|] == rs;
  }

  // ----- every other message

  predicate ValidKeyboardUsage(usage: nat) {
    (0x04 <= usage <= 0xa4) || (0xb0 <= usage <= 0xdd) || (0xe0 <= usage <= 0xe7)
  }

  function WheelClicks(horizontal: int, vertical: int): nat {
    var h := if horizontal < 0 then -horizontal else horizontal;
    var v := if vertical < 0 then -vertical else vertical;
    h / 120 + v / 120
  }

  /** Well-formed UTF-8 (RFC 3629, section 4). */
  predicate ValidUtf8(s: seq<byte>) {
    if s == [] then true
    else if s[0] < 0x80 then ValidUtf8(s[1..])
    else if 0xC2 <= s[0] <= 0xDF then |s| >= 2 && Continuation(s[1]) && ValidUtf8(s[2..])
    else if 0xE0 <= s[0] <= 0xEF then
      && |s| >= 3 && Continuation(s[1]) && Continuation(s[2])
      && (s[0] == 0xE0 ==> s[1] >= 0xA0) && (s[0] == 0xED ==> s[1] <= 0x9F)
      && ValidUtf8(s[3..])
    else
      && 0xF0 <= s[0] <= 0xF4 && |s| >= 4 && Continuation(s[1]) && Continuation(s[2]) && Continuation(s[3])
      && (s[0] == 0xF0 ==> s[1] >= 0x90) && (s[0] == 0xF4 ==> s[1] <= 0x8F)
      && ValidUtf8(s[4..])
  }

  predicate Continuation(b: byte) { 0x80 <= b <= 0xBF }

  /** The field checks of a message that carries no pixels. */
  function ControlError(m: Message, limits: Limits): Option<Error>
    requires !m.WholeFrame? && !m.Part?
  {
    match m
    case Auth(version, token) =>
      if version != VERSION1 then Some(BadVersion)
      else if forall k :: 0 <= k < |token| ==> token[k] == 0 then Some(Malformed)
      else None
    case ClientHello(min, max, capabilities) =>
      if min < VERSION1 || max < min || capabilities != 0 then Some(Malformed) else None
    case ServerHello(version, capabilities) =>
      if version != VERSION1 && version != VERSION2 then Some(BadVersion)
      else if capabilities != 0 then Some(Malformed)
      else None
    case Display(c) =>
      if c.generation == 0 || c.width == 0 || c.height == 0 || c.width > limits.maxDimension
         || c.height > limits.maxDimension || c.pixelFormat != PIXEL_BGRA8888 then Some(Malformed)
      else None
    case KeyframeRequest(generation) => if generation == 0 then Some(Malformed) else None
    case Key(generation, sequence, usage, action, _) =>
      if generation == 0 || sequence == 0 || !ValidKeyboardUsage(usage) || action < 1 || action > 2 then
        Some(Malformed)
      else None
    case PointerMove(generation, sequence, x, y) =>
      if generation == 0 || sequence == 0 || x >= limits.maxDimension || y >= limits.maxDimension then
        Some(Malformed)
      else None
    case PointerButton(generation, sequence, button, action) =>
      if generation == 0 || sequence == 0 || button < 1 || button > 5 || action < 1 || action > 2 then
        Some(Malformed)
      else None
    case PointerWheel(generation, sequence, horizontal, vertical) =>
      if generation == 0 || sequence == 0 || (horizontal == 0 && vertical == 0)
         || horizontal % 120 != 0 || vertical % 120 != 0 then Some(Malformed)
      else if WheelClicks(horizontal, vertical) > MAX_WHEEL_CLICKS then Some(Malformed)
      else None
    case FocusLost(generation, sequence) =>
      if generation == 0 || sequence == 0 then Some(Malformed) else None
    case Ping(_) => None
    case Pong(_) => None
    case Failure(code, diagnostic) =>
      if code < 1 || code > 3 || |diagnostic| > 1024 || !ValidUtf8(diagnostic) then Some(Malformed)
      else None
    case Close(code, reason) =>
      if code > 1 || |reason| > 1024 || !ValidUtf8(reason) then Some(Malformed) else None
  }

  function MessageError(m: Message, l: Limits): Option<Error> {
    match m
    case WholeFrame(f) => FrameError(f, l)
    case Part(p) => PartError(p, l)
    case _ =>
      var e := ControlError(m, Bounded(l));
      if e.Some? then e
      else if |Marshal(m)| > Bounded(l).maxControlPayload then Some(MessageTooLarge)
      else None
  }

  lemma DisplayErrorIsMessageError(c: DisplayConfig, l: Limits)
    ensures MessageError(Display(c), l) == DisplayError(c, l)
  {
  }

  method ValidateMessage(m: Message, l: Limits) returns (err: Option<Error>)
    ensures err == MessageError(m, l)
  {
    var limits := Bounded(l);
    match m {
      case WholeFrame(f) =>
        err := HeaderError(f.header, |f.rectangles|, limits);
        if err.Some? { return; }
        err := ValidateRectangles(f.rectangles, limits);
        if err.Some? { return; }
        var size := RectListPayloadSize(FRAME_HEADER_SIZE, f.rectangles);
        return if size > limits.maxPixelPayload then Some(MessageTooLarge) else None;
      case Part(p) =>
        err := HeaderError(p.header, |p.rectangles|, limits);
        if err.Some? { return; }
        if p.partCount < 2 || p.partCount > limits.maxFrameParts || p.partIndex >= p.partCount {
          return Some(Malformed);
        }
        err := ValidateRectangles(p.rectangles, limits);
        if err.Some? { return; }
        var size := RectListPayloadSize(FRAME_PART_HEADER_SIZE, p.rectangles);
        return if size > limits.maxPixelPayload then Some(MessageTooLarge) else None;
      case _ =>
        err := ControlError(m, limits);
        if err.Some? { return; }
        return if |Marshal(m)| > limits.maxControlPayload then Some(MessageTooLarge) else None;
    }
  }

  // ----- acceptance of pixel messages in declarative form

  lemma FrameAccepted(f: Frame, l: Limits)
    ensures FrameError(f, l) == None
            <==> && ValidHeader(f.header)
                 && 0 < |f.rectangles| <= Bounded(l).maxRectangles
                 && ValidList(f.rectangles, Bounded(l))
                 && FRAME_HEADER_SIZE + ListSize(f.rectangles) <= Bounded(l).maxPixelPayload
  {
    ValidListAccepted(f.rectangles, Bounded(l));
  }

  lemma PartAccepted(p: FramePart, l: Limits)
    ensures PartError(p, l) == None
            <==> && ValidHeader(p.header)
                 && 0 < |p.rectangles| <= Bounded(l).maxRectangles
                 && 2 <= p.partCount <= Bounded(l).maxFrameParts && p.partIndex < p.partCount
                 && ValidList(p.rectangles, Bounded(l))
                 && FRAME_PART_HEADER_SIZE + ListSize(p.rectangles) <= Bounded(l).maxPixelPayload
  {
    ValidListAccepted(p.rectangles, Bounded(l));
  }
}
