/** The client framebuffer as a state machine over configurations, frames and parts. */
module ClientState {
  import opened Types
  import opened Geometry
  import opened Raster
  import opened Messages
  import opened Validation

  /** The logical frame a part sequence belongs to, and how much of it has arrived. */
  datatype Tail = Tail(header: Header, partCount: nat, next: nat, rects: seq<Rect>)

  /** Idle, reassembling into the scratch buffer, or draining a rejected sequence. */
  datatype Mode = Idle | Staging(tail: Tail) | Draining(tail: Tail)

  datatype State =
    State(generation: nat, frameSequence: nat, width: nat, height: nat,
          pixels: seq<byte>, scratch: seq<byte>, keyframeRequired: bool, mode: Mode)

  datatype Outcome = Committed | Consumed | Rejected(error: Error)

  /** The session's limits and its zlib decompressor (None: corrupt stream). */
  datatype Setup = Setup(limits: Limits, inflate: seq<byte> -> Option<seq<byte>>)

  datatype Event = Configure(config: DisplayConfig) | Apply(frame: Frame) | ApplyPart(part: FramePart)

  const BLANK := State(0, 0, 0, 0, [], [], false, Idle)

  predicate Sized(s: State) {
    s.generation > 0 ==> s.width > 0 && s.height > 0 && |s.pixels| == s.width * s.height * 4
  }

  // ----- decoding and drawing rectangles

  predicate InsideDisplay(r: Rect, width: nat, height: nat) {
    !(r.x >= width || r.y >= height || r.w > width - r.x || r.h > height - r.y)
  }

  predicate RawSized(r: Rectangle) {
    r.encoding == RAW_BGRA ==> |r.pixels| == Area(r.rect) * 4
  }

  predicate AllRawSized(rs: seq<Rectangle>) {
    forall k :: 0 <= k < |rs| ==> RawSized(rs[k])
  }

  function Decode(r: Rectangle, inflate: seq<byte> -> Option<seq<byte>>): (d: Result<seq<byte>, Error>)
    ensures d.Ok? && RawSized(r) ==> |d.value| == Area(r.rect) * 4
  {
    var expected := r.rect.w * r.rect.h * 4;
    if expected > MAX_PIXEL_PAYLOAD_HARD then Err(MessageTooLarge)
    else if r.encoding == RAW_BGRA then Ok(r.pixels)
    else match inflate(r.pixels)
         case None => Err(BadZlib)
         case Some(out) => if |out| != expected then Err(DecodedLength) else Ok(out)
  }

  /** Draws a whole frame's rectangles in order, stopping at the first bad one. */
  function DrawFrame(buf: seq<byte>, rs: seq<Rectangle>, width: nat, height: nat,
                     inflate: seq<byte> -> Option<seq<byte>>): (d: (seq<byte>, Option<Error>))
    requires width > 0 && AllRawSized(rs)
    ensures |d.0| == |buf|
    decreases |rs|
  {
    if rs == [] then (buf, None)
    else if !InsideDisplay(rs[0].rect, width, height) then (buf, Some(OutsideDisplay))
    else match Decode(rs[0], inflate)
         case Err(e) => (buf, Some(e))
         case Ok(bytes) =>
           DrawFrame(Blit(buf, Patch(rs[0].rect, bytes), width), rs[1..], width, height, inflate)
  }

  predicate OverlapsAny(r: Rect, placed: seq<Rect>) {
    exists k :: 0 <= k < |placed| && Overlaps(placed[k], r)
  }

  /** Draws one part's rectangles behind those already placed by earlier parts. */
  function DrawPart(buf: seq<byte>, placed: seq<Rect>, rs: seq<Rectangle>, width: nat, height: nat,
                    inflate: seq<byte> -> Option<seq<byte>>): (d: (seq<byte>, seq<Rect>, Option<Error>))
    requires width > 0 && AllRawSized(rs)
    ensures |d.0| == |buf|
    decreases |rs|
  {
    if rs == [] then (buf, placed, None)
    else if !InsideDisplay(rs[0].rect, width, height) then (buf, placed, Some(OutsideDisplay))
    else if OverlapsAny(rs[0].rect, placed) then (buf, placed, Some(OverlappingParts))
    else match Decode(rs[0], inflate)
         case Err(e) => (buf, placed, Some(e))
         case Ok(bytes) =>
           DrawPart(Blit(buf, Patch(rs[0].rect, bytes), width), placed + [rs[0].rect], rs[1..],
                    width, height, inflate)
  }

  /** A drained part is checked exactly like a staged one but never drawn. */
  function DrainPart(placed: seq<Rect>, rs: seq<Rectangle>, width: nat, height: nat)
    : (seq<Rect>, Option<Error>)
    decreases |rs|
  {
    if rs == [] then (placed, None)
    else if !InsideDisplay(rs[0].rect, width, height) then (placed, Some(OutsideDisplay))
    else if OverlapsAny(rs[0].rect, placed) then (placed, Some(OverlappingParts))
    else DrainPart(placed + [rs[0].rect], rs[1..], width, height)
  }

  // ----- transitions

  function Reconfigure(s: State, c: DisplayConfig, setup: Setup): (State, Outcome) {
    if DisplayError(c, setup.limits).Some? then (s, Rejected(DisplayError(c, setup.limits).value))
    else if c.generation <= s.generation then (s, Rejected(StaleGeneration))
    else if c.width * c.height * 4 > MAX_PIXEL_PAYLOAD_HARD * 16 then (s, Rejected(MessageTooLarge))
    else
      var blank := Zeros(c.width * c.height * 4);
      (State(c.generation, 0, c.width, c.height, blank, blank, true, Idle),
       if s.mode.Idle? then Consumed else Rejected(Interleaved))
  }

  /** The spare buffer, reallocated when it does not match the display. */
  function Spare(s: State): seq<byte> {
    if |s.scratch| == |s.pixels| then s.scratch else Zeros(|s.pixels|)
  }

  function CommitFrame(s: State, h: Header, drawn: seq<byte>): State {
    s.(pixels := drawn, scratch := s.pixels, frameSequence := h.sequence, keyframeRequired := false,
       mode := Idle)
  }

  /** A single FRAME, after it was validated and found not to interleave. */
  function ApplyWhole(s: State, h: Header, rs: seq<Rectangle>, setup: Setup): (State, Outcome)
    requires Sized(s) && AllRawSized(rs) && s.mode.Idle?
  {
    if s.generation == 0 then (s, Rejected(DisplayNotConfigured))
    else if h.generation != s.generation then (s, Rejected(StaleGeneration))
    else if s.keyframeRequired && !h.keyframe then (s, Rejected(KeyframeRequired))
    else if !h.keyframe && h.base != s.frameSequence then (s, Rejected(KeyframeRequired))
    else if h.keyframe && h.sequence <= s.frameSequence then (s, Rejected(StaleSequence))
    else
      var start := if h.keyframe then Spare(s) else s.pixels;
      var (drawn, err) := DrawFrame(start, rs, s.width, s.height, setup.inflate);
      if err.Some? then (s.(scratch := drawn), Rejected(err.value))
      else if h.keyframe && TotalArea(Rects(rs)) != s.width * s.height then
        (s.(scratch := drawn), Rejected(IncompleteKeyframe))
      else (CommitFrame(s, h, drawn), Committed)
  }

  function PlacePart(s: State, p: FramePart, setup: Setup): (State, Outcome)
    requires s.generation > 0 && Sized(s) && s.mode.Staging? && AllRawSized(p.rectangles)
  {
    var t := s.mode.tail;
    if p.partIndex != t.next then (s, Rejected(UnexpectedIndex))
    else if |t.rects| + |p.rectangles| > Bounded(setup.limits).maxRectangles then
      (s, Rejected(TooManyRectangles))
    else
      var (drawn, placed, err) :=
        DrawPart(s.scratch, t.rects, p.rectangles, s.width, s.height, setup.inflate);
      var s' := s.(scratch := drawn, mode := Staging(t.(rects := placed)));
      if err.Some? then (s', Rejected(err.value))
      else
        var done := s'.(mode := Staging(t.(rects := placed, next := t.next + 1)));
        if t.next + 1 < t.partCount then (done, Consumed)
        else if t.header.keyframe && TotalArea(placed) != s.width * s.height then
          (done, Rejected(IncompleteKeyframe))
        else (CommitFrame(s, t.header, drawn), Committed)
  }

  function BeginDrain(s: State, p: FramePart): State {
    s.(mode := Draining(Tail(p.header, p.partCount, 1, Rects(p.rectangles))))
  }

  function StartPart(s: State, p: FramePart, setup: Setup): (State, Outcome)
    requires s.generation > 0 && Sized(s) && !s.mode.Draining? && AllRawSized(p.rectangles)
  {
    var h := p.header;
    if s.mode.Staging? then (s.(mode := Idle), Rejected(RestartAtPartZero))
    else if s.keyframeRequired && !h.keyframe then (BeginDrain(s, p), Rejected(KeyframeRequired))
    else if !h.keyframe && h.base != s.frameSequence then (BeginDrain(s, p), Rejected(KeyframeRequired))
    else if h.keyframe && h.sequence <= s.frameSequence then (s, Rejected(StaleSequence))
    else
      var start := if h.keyframe then Spare(s) else s.pixels;
      PlacePart(s.(scratch := start, mode := Staging(Tail(h, p.partCount, 0, []))), p, setup)
  }

  predicate SameFrame(t: Tail, p: FramePart) {
    p.header == t.header && p.partCount == t.partCount
  }

  function DrainStep(s: State, p: FramePart, setup: Setup): (State, Outcome)
    requires s.mode.Draining?
  {
    var t := s.mode.tail;
    if p.partIndex == 0 then (s, Rejected(RestartAtPartZero))
    else if !SameFrame(t, p) then (s, Rejected(InconsistentHeader))
    else if p.partIndex != t.next then (s, Rejected(UnexpectedIndex))
    else if |t.rects| + |p.rectangles| > Bounded(setup.limits).maxRectangles then
      (s, Rejected(TooManyRectangles))
    else
      var (placed, err) := DrainPart(t.rects, p.rectangles, s.width, s.height);
      if err.Some? then (s.(mode := Draining(t.(rects := placed))), Rejected(err.value))
      else if t.next + 1 >= t.partCount then (s.(mode := Idle), Consumed)
      else (s.(mode := Draining(t.(rects := placed, next := t.next + 1))), Consumed)
  }

  lemma AcceptedIsRawSized(rs: seq<Rectangle>, limits: Limits)
    ensures ListError(rs, 0, limits) == None ==> AllRawSized(rs)
  {
    ValidListAccepted(rs, limits);
  }

  function Step(s: State, e: Event, setup: Setup): (State, Outcome)
    requires Sized(s)
  {
    match e
    case Configure(c) => Reconfigure(s, c, setup)
    case Apply(f) =>
      var err := FrameError(f, setup.limits);
      AcceptedIsRawSized(f.rectangles, Bounded(setup.limits));
      if err.Some? then (s, Rejected(err.value))
      else if !s.mode.Idle? then (s, Rejected(Interleaved))
      else ApplyWhole(s, f.header, f.rectangles, setup)
    case ApplyPart(p) =>
      var err := PartError(p, setup.limits);
      AcceptedIsRawSized(p.rectangles, Bounded(setup.limits));
      if err.Some? then (s, Rejected(err.value))
      else if s.generation == 0 then (s, Rejected(DisplayNotConfigured))
      else if p.header.generation != s.generation then (s, Rejected(StaleGeneration))
      else if s.mode.Draining? then DrainStep(s, p, setup)
      else if p.partIndex == 0 then StartPart(s, p, setup)
      else if !s.mode.Staging? then (s, Rejected(MissingPartZero))
      else if !SameFrame(s.mode.tail, p) then (s, Rejected(InconsistentHeader))
      else PlacePart(s, p, setup)
  }

  // ----- what every reachable state satisfies

  ghost predicate ValidStaging(s: State, t: Tail, setup: Setup) {
    && t.header.generation == s.generation
    && s.frameSequence < t.header.sequence
    && (!t.header.keyframe ==> t.header.base == s.frameSequence && !s.keyframeRequired)
    && t.next <= t.partCount
    && Disjoint(t.rects) && AllInBounds(t.rects, s.width, s.height)
    && |t.rects| <= Bounded(setup.limits).maxRectangles
  }

  ghost predicate Inv(s: State, setup: Setup) {
    && Sized(s)
    && |s.scratch| == |s.pixels|
    && (s.generation == 0 ==> s.mode.Idle?)
    && (s.mode.Staging? ==> ValidStaging(s, s.mode.tail, setup))
    && (s.mode.Draining? ==> s.mode.tail.next < s.mode.tail.partCount && Solid(s.mode.tail.rects))
  }

  /** None of the rectangles is empty. */
  ghost predicate Solid(rs: seq<Rect>) {
    forall k :: 0 <= k < |rs| ==> 0 < rs[k].w && 0 < rs[k].h
  }

  lemma BlankIsValid(setup: Setup)
    ensures Inv(BLANK, setup)
  {
  }

  lemma PlacedOneMore(placed: seq<Rect>, r: Rect, width: nat, height: nat)
    requires Disjoint(placed) && AllInBounds(placed, width, height) && !OverlapsAny(r, placed)
    requires 0 < r.w && 0 < r.h && InsideDisplay(r, width, height)
    ensures Disjoint(placed + [r]) && AllInBounds(placed + [r], width, height)
  {
  }

  lemma PlacedThenRest(placed: seq<Rect>, rs: seq<Rectangle>)
    requires rs != []
    ensures placed + [rs[0].rect] + Rects(rs[1..]) == placed + Rects(rs)
  {
    assert Rects(rs) == [rs[0].rect] + Rects(rs[1..]);
  }

  lemma {:induction false} DrawPartPlaces(buf: seq<byte>, placed: seq<Rect>, rs: seq<Rectangle>,
                                          width: nat, height: nat, inflate: seq<byte> -> Option<seq<byte>>)
    requires width > 0 && AllRawSized(rs)
    requires forall k :: 0 <= k < |rs| ==> 0 < rs[k].rect.w && 0 < rs[k].rect.h
    requires Disjoint(placed) && AllInBounds(placed, width, height)
    ensures var (drawn, after, err) := DrawPart(buf, placed, rs, width, height, inflate);
            && Disjoint(after) && AllInBounds(after, width, height)
            && |placed| <= |after| <= |placed| + |rs|
            && (err == None ==> after == placed + Rects(rs))
    decreases |rs|
  {
    hide Decode, Blit, OverlapsAny, Disjoint, AllInBounds, InsideDisplay, RawSized, Area;
    if rs == [] {
      assert placed + Rects(rs) == placed;
    } else if InsideDisplay(rs[0].rect, width, height) && !OverlapsAny(rs[0].rect, placed)
              && Decode(rs[0], inflate).Ok? {
      var p := Patch(rs[0].rect, Decode(rs[0], inflate).value);
      PlacedOneMore(placed, rs[0].rect, width, height);
      DrawPartPlaces(Blit(buf, p, width), placed + [rs[0].rect], rs[1..], width, height, inflate);
      PlacedThenRest(placed, rs);
    }
  }

  /** (generation, sequence) grows at every commit and every accepted reconfiguration. */
  predicate Later(s: State, s': State) {
    s.generation < s'.generation || (s.generation == s'.generation && s.frameSequence < s'.frameSequence)
  }

  /** The invariant survives every event, accepted or not. Anything but a commit or a
      reconfiguration leaves what is shown untouched; those two move strictly forward. */
  lemma StepKeepsInvariant(s: State, e: Event, setup: Setup)
    requires Inv(s, setup)
    ensures var (s', out) := Step(s, e, setup);
            && Inv(s', setup)
            && (s' == s || out == Committed || e.Configure? ||
                (s'.pixels == s.pixels && s'.frameSequence == s.frameSequence
                 && s'.generation == s.generation && s'.width == s.width && s'.height == s.height
                 && s'.keyframeRequired == s.keyframeRequired))
            && (out == Committed ==> !e.Configure? && Later(s, s') && s'.mode == Idle && !s'.keyframeRequired)
            && (e.Configure? && s' != s ==> Later(s, s') && s'.keyframeRequired)
  {
    match e {
      case Configure(c) =>
        hide DisplayError;
      case Apply(f) =>
        hide Step, Inv;
        WholeStepKeepsInvariant(s, f, setup);
      case ApplyPart(p) =>
        hide Step, Inv;
        PartStepKeepsInvariant(s, p, setup);
    }
  }

  lemma WholeStepKeepsInvariant(s: State, f: Frame, setup: Setup)
    requires Inv(s, setup)
    ensures GoodFrameStep(s, Step(s, Apply(f), setup), setup)
  {
    hide DrawFrame, FrameError, TotalArea, Bounded, Disjoint, AllInBounds;
    AcceptedIsRawSized(f.rectangles, Bounded(setup.limits));
    FrameAccepted(f, setup.limits);
  }

  /** A step that shows nothing new: only the scratch buffer and the mode may differ. */
  ghost predicate Unshown(s: State, s': State) {
    s' == s.(scratch := s'.scratch, mode := s'.mode)
  }

  ghost predicate GoodFrameStep(s: State, r: (State, Outcome), setup: Setup) {
    && Inv(r.0, setup)
    && (r.1 != Committed ==> Unshown(s, r.0))
    && (r.1 == Committed ==> Later(s, r.0) && r.0.mode == Idle && !r.0.keyframeRequired)
  }

  lemma PlacePartKeepsInvariant(s: State, p: FramePart, setup: Setup)
    requires Inv(s, setup) && s.mode.Staging? && PartError(p, setup.limits) == None
    requires AllRawSized(p.rectangles) && p.partCount == s.mode.tail.partCount
    ensures GoodFrameStep(s, PlacePart(s, p, setup), setup)
  {
    hide DrawPart, Disjoint, AllInBounds, PartError, TotalArea, Bounded;
    PartAccepted(p, setup.limits);
    DrawPartPlaces(s.scratch, s.mode.tail.rects, p.rectangles, s.width, s.height, setup.inflate);
  }

  lemma NothingPlacedYet(width: nat, height: nat)
    ensures Disjoint([]) && AllInBounds([], width, height)
  {
  }

  lemma StartPartKeepsInvariant(s: State, p: FramePart, setup: Setup)
    requires Inv(s, setup) && !s.mode.Draining? && PartError(p, setup.limits) == None
    requires AllRawSized(p.rectangles)
    requires s.generation > 0 && p.header.generation == s.generation && p.partIndex == 0
    ensures GoodFrameStep(s, StartPart(s, p, setup), setup)
  {
    hide DrawPart, Disjoint, AllInBounds, PartError, TotalArea, Bounded, PlacePart, Solid;
    PartAccepted(p, setup.limits);
    BegunIsSolid(p.rectangles, Bounded(setup.limits));
    NothingPlacedYet(s.width, s.height);
    var h := p.header;
    if s.mode.Idle? && (h.keyframe || (!s.keyframeRequired && h.base == s.frameSequence))
       && s.frameSequence < h.sequence {
      var start := if h.keyframe then Spare(s) else s.pixels;
      var s0 := s.(scratch := start, mode := Staging(Tail(h, p.partCount, 0, [])));
      PlacePartKeepsInvariant(s0, p, setup);
      assert Unshown(s, s0);
    }
  }

  lemma {:induction false} DrainedIsSolid(placed: seq<Rect>, rs: seq<Rectangle>, width: nat, height: nat)
    requires Solid(placed) && forall k :: 0 <= k < |rs| ==> 0 < rs[k].rect.w && 0 < rs[k].rect.h
    ensures Solid(DrainPart(placed, rs, width, height).0)
    decreases |rs|
  {
    hide InsideDisplay, OverlapsAny;
    if rs != [] {
      DrainedIsSolid(placed + [rs[0].rect], rs[1..], width, height);
    }
  }

  lemma DrainKeepsInvariant(s: State, p: FramePart, setup: Setup)
    requires Inv(s, setup) && s.mode.Draining? && PartError(p, setup.limits) == None
    ensures GoodFrameStep(s, DrainStep(s, p, setup), setup)
  {
    hide DrainPart, PartError, Bounded, Solid;
    PartAccepted(p, setup.limits);
    DrainedIsSolid(s.mode.tail.rects, p.rectangles, s.width, s.height);
  }

  lemma BegunIsSolid(rs: seq<Rectangle>, limits: Limits)
    requires ValidList(rs, limits)
    ensures Solid(Rects(rs))
  {
  }

  lemma PartStepKeepsInvariant(s: State, p: FramePart, setup: Setup)
    requires Inv(s, setup)
    ensures GoodFrameStep(s, Step(s, ApplyPart(p), setup), setup)
  {
    hide DrawPart, DrainPart, Disjoint, AllInBounds, PartError, TotalArea, Bounded, PlacePart, StartPart, DrainStep;
    hide Solid;
    AcceptedIsRawSized(p.rectangles, Bounded(setup.limits));
    PartAccepted(p, setup.limits);
    if PartError(p, setup.limits) == None && s.generation > 0 && p.header.generation == s.generation {
      if s.mode.Draining? {
        DrainKeepsInvariant(s, p, setup);
      } else if p.partIndex == 0 {
        StartPartKeepsInvariant(s, p, setup);
      } else if s.mode.Staging? && SameFrame(s.mode.tail, p) {
        PlacePartKeepsInvariant(s, p, setup);
      }
    }
  }
}
