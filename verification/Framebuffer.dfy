/** The client framebuffer itself: two swapped heap buffers and a single-slot reassembler. */
module Framebuffer {
  import opened Types
  import opened Geometry
  import opened Raster
  import opened Messages
  import opened Validation
  import opened ClientState

  function ErrorOf(out: Outcome): Option<Error> {
    if out.Rejected? then Some(out.error) else None
  }

  /** The one FRAME_PART sequence in progress; pixels is the framebuffer's spare buffer. */
  class FrameStaging {
    const header: Header
    const partCount: nat
    var nextPartIndex: nat
    var rectCount: nat
    var covered: nat
    var rectangles: seq<Rect>
    const pixels: array<byte>

    constructor (header: Header, partCount: nat, pixels: array<byte>)
      ensures this.header == header && this.partCount == partCount && this.pixels == pixels
      ensures nextPartIndex == 0 && rectCount == 0 && covered == 0 && rectangles == []
    {
      this.header, this.partCount, this.pixels := header, partCount, pixels;
      nextPartIndex, rectCount, covered, rectangles := 0, 0, 0, [];
    }
  }

  ghost predicate Tallied(s: FrameStaging)
    reads s
  {
    s.rectCount == |s.rectangles| && s.covered == TotalArea(s.rectangles)
  }

  /** The tail of a rejected delta sequence still to be consumed. */
  class FrameDiscard {
    const header: Header
    const partCount: nat
    var nextPartIndex: nat
    var rectCount: nat
    var rectangles: seq<Rect>

    constructor (part: FramePart)
      ensures header == part.header && partCount == part.partCount && nextPartIndex == 1
      ensures rectCount == |part.rectangles| && rectangles == Rects(part.rectangles)
    {
      header, partCount, nextPartIndex := part.header, part.partCount, 1;
      rectCount, rectangles := |part.rectangles|, Rects(part.rectangles);
    }
  }

  lemma HitsNextRow(r: Rect, row: nat, i: nat, width: nat)
    requires width > 0 && row < r.h
    ensures Hits(Rect(r.x, r.y, r.w, row + 1), i, width)
            <==> Hits(Rect(r.x, r.y, r.w, row), i, width) || Hits(Rect(r.x, r.y + row, r.w, 1), i, width)
    ensures !(Hits(Rect(r.x, r.y, r.w, row), i, width) && Hits(Rect(r.x, r.y + row, r.w, 1), i, width))
    ensures Hits(Rect(r.x, r.y, r.w, row), i, width) ==> Hits(r, i, width)
    ensures !Hits(Rect(r.x, r.y, r.w, 0), i, width)
  {
    hide Row, Col;
  }

  /** What one row's copy, n bytes from src to off, contributes. */
  lemma RowPlaces(r: Rect, row: nat, width: nat, height: nat, off: nat, src: nat, n: nat)
    requires InBounds(r, width, height) && row < r.h
    requires off == ((r.y + row) * width + r.x) * 4 && n == r.w * 4 && src == row * n
    ensures off + n <= width * height * 4 && src + n <= Area(r) * 4
    ensures forall i: nat ::
              && (off <= i < off + n ==> Hits(r, i, width) && Local(r, i, width) == src + (i - off))
              && (Hits(Rect(r.x, r.y, r.w, row + 1), i, width)
                  <==> Hits(Rect(r.x, r.y, r.w, row), i, width) || off <= i < off + n)
  {
    hide Hits, Local, Area, Row, Col;
    RowSpan(r, row, width, height, 0);
    forall i: nat
      ensures off <= i < off + n ==> Hits(r, i, width) && Local(r, i, width) == src + (i - off)
      ensures Hits(Rect(r.x, r.y, r.w, row + 1), i, width)
              <==> Hits(Rect(r.x, r.y, r.w, row), i, width) || off <= i < off + n
    {
      RowSpan(r, row, width, height, i);
      HitsNextRow(r, row, i, width);
    }
  }

  /** Copies a decoded rectangle row by row into a display buffer. */
  method BlitRectangle(dst: array<byte>, decoded: seq<byte>, r: Rect, width: nat, ghost height: nat)
    requires InBounds(r, width, height) && dst.Length == width * height * 4
    requires |decoded| == Area(r) * 4
    modifies dst
    ensures dst[..] == Blit(old(dst[..]), Patch(r, decoded), width)
  {
    hide Hits, Local, Area, Row, Col;
    var rowBytes := r.w * 4;
    forall i | 0 <= i < dst.Length
      ensures !Hits(Rect(r.x, r.y, r.w, 0), i, width)
    {
      HitsNextRow(r, 0, i, width);
    }
    for row := 0 to r.h
      invariant forall i :: 0 <= i < dst.Length ==>
        Hits(Rect(r.x, r.y, r.w, row), i, width) ==> Hits(r, i, width)
      invariant forall i :: 0 <= i < dst.Length ==>
        dst[i] == if Hits(Rect(r.x, r.y, r.w, row), i, width) then decoded[Local(r, i, width)] else old(dst[i])
    {
      var off := ((r.y + row) * width + r.x) * 4;
      var src := row * rowBytes;
      RowPlaces(r, row, width, height, off, src, rowBytes);
      CopyBytes(dst, off, decoded[src..src + rowBytes]);
    }
    assert Rect(r.x, r.y, r.w, r.h) == r;
  }

  method DecodeRectangle(r: Rectangle, inflate: seq<byte> -> Option<seq<byte>>)
    returns (d: Result<seq<byte>, Error>)
    ensures d == Decode(r, inflate)
  {
    var expected := r.rect.w * r.rect.h * 4;
    if expected > MAX_PIXEL_PAYLOAD_HARD {
      return Err(MessageTooLarge);
    }
    if r.encoding == RAW_BGRA {
      return Ok(r.pixels);
    }
    var out := inflate(r.pixels);
    if out == None {
      return Err(BadZlib);
    }
    if |out.value| != expected {
      return Err(DecodedLength);
    }
    return Ok(out.value);
  }

  lemma TakeNext<T>(s: seq<T>, i: nat)
    requires i < |s|
    ensures s[i..] != [] && s[i..][0] == s[i] && s[i..][1..] == s[i + 1..]
  {
  }

  lemma AreaSnoc(rs: seq<Rect>, r: Rect)
    ensures TotalArea(rs + [r]) == TotalArea(rs) + Area(r)
  {
    assert (rs + [r])[..|rs|] == rs;
  }

  lemma NoArea()
    ensures TotalArea([]) == 0
  {
  }

  predicate NonEmpty(rs: seq<Rectangle>) {
    forall k :: 0 <= k < |rs| ==> 0 < rs[k].rect.w && 0 < rs[k].rect.h
  }

  lemma AcceptedIsNonEmpty(rs: seq<Rectangle>, limits: Limits)
    requires ValidList(rs, limits)
    ensures NonEmpty(rs) && AllRawSized(rs)
  {
  }

  method MeetsAny(placed: seq<Rect>, r: Rect) returns (meets: bool)
    ensures meets == OverlapsAny(r, placed)
  {
    for k := 0 to |placed|
      invariant forall j :: 0 <= j < k ==> !Overlaps(placed[j], r)
    {
      if Overlaps(placed[k], r) {
        return true;
      }
    }
    return false;
  }

  method BlankBuffer(size: nat) returns (buffer: array<byte>)
    ensures fresh(buffer) && buffer[..] == Zeros(size)
  {
    buffer := new byte[size](_ => 0);
  }

  method CopyBuffer(dst: array<byte>, src: array<byte>)
    requires dst.Length == src.Length && dst != src
    modifies dst
    ensures dst[..] == src[..]
  {
    forall i | 0 <= i < dst.Length {
      dst[i] := src[i];
    }
  }

  class Framebuffer {
    const setup: Setup
    var generation: nat
    var frameSequence: nat
    var width: nat
    var height: nat
    var pixels: array<byte>
    var spare: array<byte>
    var keyframeRequired: bool
    var staging: FrameStaging?
    var discard: FrameDiscard?

    ghost function ModeOf(): Mode
      reads this, staging, discard
    {
      if staging != null then
        Staging(Tail(staging.header, staging.partCount, staging.nextPartIndex, staging.rectangles))
      else if discard != null then
        Draining(Tail(discard.header, discard.partCount, discard.nextPartIndex, discard.rectangles))
      else Idle
    }

    /** What the buffers and the reassembler currently hold. */
    ghost function Model(): State
      reads this, pixels, spare, staging, discard
    {
      State(generation, frameSequence, width, height, pixels[..], spare[..], keyframeRequired, ModeOf())
    }

    /** The heap half of the invariant: two distinct buffers, staging only in the spare
        one, at most one of staging and discard, and bookkeeping that matches. */
    ghost predicate Linked()
      reads this, staging, discard
    {
      && pixels != spare
      && (staging == null || discard == null)
      && (staging != null ==> staging.pixels == spare && Tallied(staging))
      && (discard != null ==> discard.rectCount == |discard.rectangles|)
    }

    ghost predicate Valid()
      reads this, pixels, spare, staging, discard
    {
      Linked() && Inv(Model(), setup)
    }

    lemma ModelIsSized()
      requires Valid()
      ensures Inv(Model(), setup) && Sized(Model()) && pixels.Length == spare.Length
    {
      assert |Model().scratch| == |Model().pixels|;
    }

    constructor (setup: Setup)
      ensures Valid() && this.setup == setup && Model() == BLANK
    {
      this.setup := setup;
      generation, frameSequence, width, height := 0, 0, 0, 0;
      pixels := new byte[0];
      spare := new byte[0];
      keyframeRequired, staging, discard := false, null, null;
      new;
      BlankIsValid(setup);
      assert Model() == BLANK;
    }

    /** Forgets everything, so that a reconnect starts over at generation 0. */
    method Reset()
      requires Valid()
      modifies this
      ensures Valid() && Model() == BLANK && fresh(pixels) && fresh(spare)
    {
      hide Inv;
      generation, frameSequence, width, height := 0, 0, 0, 0;
      pixels := new byte[0];
      spare := new byte[0];
      keyframeRequired, staging, discard := false, null, null;
      BlankIsValid(setup);
      assert Model() == BLANK;
    }

    method Configure(config: DisplayConfig) returns (err: Option<Error>)
      requires Valid()
      modifies this
      ensures Valid()
      ensures var (s, out) := Step(old(Model()), ClientState.Configure(config), setup);
              Model() == s && err == ErrorOf(out)
      ensures (pixels == old(pixels) && spare == old(spare)) || (fresh(pixels) && fresh(spare))
    {
      hide Inv, DisplayError, MessageError;
      ModelIsSized();
      StepKeepsInvariant(Model(), ClientState.Configure(config), setup);
      var invalid := ValidateMessage(Display(config), setup.limits);
      DisplayErrorIsMessageError(config, setup.limits);
      if invalid.Some? {
        return invalid;
      }
      if config.generation <= generation {
        return Some(StaleGeneration);
      }
      var size := config.width * config.height * 4;
      if size > MAX_PIXEL_PAYLOAD_HARD * 16 {
        return Some(MessageTooLarge);
      }
      var interleaved := staging != null || discard != null;
      Resize(config, size);
      return if interleaved then Some(Interleaved) else None;
    }

    /** Drops any part sequence and starts the new display with two blank buffers. */
    method Resize(config: DisplayConfig, size: nat)
      modifies this
      ensures staging == null && discard == null
      ensures pixels != spare && fresh(pixels) && fresh(spare)
      ensures Model() == State(config.generation, 0, config.width, config.height,
                               Zeros(size), Zeros(size), true, Idle)
    {
      staging, discard := null, null;
      generation, frameSequence := config.generation, 0;
      width, height := config.width, config.height;
      pixels := BlankBuffer(size);
      spare := BlankBuffer(size);
      keyframeRequired := true;
    }

    method Snapshot() returns (s: (nat, nat, Image))
      requires Valid()
      ensures s == (generation, frameSequence, Image(width, height, pixels[..]))
    {
      s := (generation, frameSequence, Image(width, height, pixels[..]));
    }

    /** The spare buffer, sized to the display. */
    method StagingBuffer() returns (buffer: array<byte>)
      requires pixels != spare
      modifies this`spare
      ensures buffer == spare && spare.Length == pixels.Length && pixels != spare
      ensures if old(spare.Length == pixels.Length) then spare == old(spare) else fresh(spare)
      ensures spare[..] == old(if spare.Length == pixels.Length then spare[..] else Zeros(pixels.Length))
    {
      if spare.Length != pixels.Length {
        spare := BlankBuffer(pixels.Length);
      }
      buffer := spare;
    }

    method Apply(frame: Frame) returns (err: Option<Error>)
      requires Valid()
      modifies this, spare
      ensures Valid()
      ensures var (s, out) := Step(old(Model()), ClientState.Apply(frame), setup);
              Model() == s && err == ErrorOf(out)
      ensures {pixels, spare} == old({pixels, spare})
    {
      hide Inv, FrameError, ApplyWhole, ValidList;
      ModelIsSized();
      StepKeepsInvariant(Model(), ClientState.Apply(frame), setup);
      FrameAccepted(frame, setup.limits);
      err := ValidateMessage(WholeFrame(frame), setup.limits);
      if err.Some? {
        return;
      }
      if staging != null || discard != null {
        return Some(Interleaved);
      }
      AcceptedIsNonEmpty(frame.rectangles, Bounded(setup.limits));
      err := ApplyFrameLocked(frame);
    }

    method ApplyFrameLocked(frame: Frame) returns (err: Option<Error>)
      requires Valid() && staging == null && discard == null
      requires AllRawSized(frame.rectangles) && NonEmpty(frame.rectangles)
      modifies this, spare
      ensures staging == null && discard == null && pixels != spare
      ensures var (s, out) := ApplyWhole(old(Model()), frame.header, frame.rectangles, setup);
              Model() == s && err == ErrorOf(out)
      ensures {pixels, spare} == old({pixels, spare})
    {
      hide Inv, DrawFrame, Blit, Decode;
      ModelIsSized();
      var h := frame.header;
      if generation == 0 {
        return Some(DisplayNotConfigured);
      }
      if h.generation != generation {
        return Some(StaleGeneration);
      }
      if keyframeRequired && !h.keyframe {
        return Some(KeyframeRequired);
      }
      if !h.keyframe && h.base != frameSequence {
        return Some(KeyframeRequired);
      }
      if h.keyframe && h.sequence <= frameSequence {
        return Some(StaleSequence);
      }
      var next := StagingBuffer();
      if !h.keyframe {
        CopyBuffer(next, pixels);
      }
      var covered;
      covered, err := DrawRectangles(next, frame.rectangles);
      if err.Some? {
        return;
      }
      if h.keyframe && covered != width * height {
        return Some(IncompleteKeyframe);
      }
      pixels, spare := next, pixels;
      frameSequence, keyframeRequired := h.sequence, false;
      return None;
    }

    /** The FRAME loop: bounds, decode, blit and area, one rectangle at a time. */
    method DrawRectangles(next: array<byte>, rs: seq<Rectangle>) returns (covered: nat, err: Option<Error>)
      requires width > 0 && next.Length == width * height * 4
      requires AllRawSized(rs) && NonEmpty(rs)
      modifies next
      ensures (next[..], err) == DrawFrame(old(next[..]), rs, width, height, setup.inflate)
      ensures err == None ==> covered == TotalArea(Rects(rs))
    {
      hide Blit, TotalArea;
      covered := 0;
      NoArea();
      for i := 0 to |rs|
        invariant DrawFrame(old(next[..]), rs, width, height, setup.inflate)
                  == DrawFrame(next[..], rs[i..], width, height, setup.inflate)
        invariant covered == TotalArea(Rects(rs)[..i])
      {
        var r := rs[i];
        TakeNext(rs, i);
        AreaSnoc(Rects(rs)[..i], r.rect);
        assert Rects(rs)[..i + 1] == Rects(rs)[..i] + [r.rect];
        if r.rect.x >= width || r.rect.y >= height || r.rect.w > width - r.rect.x || r.rect.h > height - r.rect.y {
          return covered, Some(OutsideDisplay);
        }
        var decoded := DecodeRectangle(r, setup.inflate);
        if decoded.Err? {
          return covered, Some(decoded.error);
        }
        BlitRectangle(next, decoded.value, r.rect, width, height);
        covered := covered + r.rect.w * r.rect.h;
      }
      assert Rects(rs)[..|rs|] == Rects(rs);
      return covered, None;
    }

    method ApplyPart(part: FramePart) returns (committed: bool, err: Option<Error>)
      requires Valid()
      modifies this, spare, staging, discard
      ensures Valid()
      ensures var (s, out) := Step(old(Model()), ClientState.ApplyPart(part), setup);
              Model() == s && committed == (out == Committed) && err == ErrorOf(out)
      ensures {pixels, spare} == old({pixels, spare})
      ensures staging == null || staging == old(staging) || fresh(staging)
      ensures discard == null || discard == old(discard) || fresh(discard)
    {
      hide Inv, PartError, StartPart, PlacePart, DrainStep, ValidList, Bounded;
      ModelIsSized();
      StepKeepsInvariant(Model(), ClientState.ApplyPart(part), setup);
      PartAccepted(part, setup.limits);
      committed := false;
      err := ValidateMessage(Part(part), setup.limits);
      if err.Some? {
        return;
      }
      if generation == 0 {
        return false, Some(DisplayNotConfigured);
      }
      if part.header.generation != generation {
        return false, Some(StaleGeneration);
      }
      AcceptedIsNonEmpty(part.rectangles, Bounded(setup.limits));
      if discard != null {
        err := DrainDiscard(part);
      } else if part.partIndex == 0 {
        committed, err := StartStaging(part);
      } else {
        committed, err := ContinueStaging(part);
      }
    }

    method StartStaging(part: FramePart) returns (committed: bool, err: Option<Error>)
      requires Linked() && discard == null && generation > 0 && Sized(Model()) && spare.Length == pixels.Length
      requires AllRawSized(part.rectangles) && NonEmpty(part.rectangles)
      modifies this, spare, staging
      ensures Linked()
      ensures var (s, out) := StartPart(old(Model()), part, setup);
              Model() == s && committed == (out == Committed) && err == ErrorOf(out)
      ensures {pixels, spare} == old({pixels, spare})
      ensures staging == null || staging == old(staging) || fresh(staging)
      ensures discard == null || fresh(discard)
    {
      hide PlacePart, Bounded;
      var h := part.header;
      if staging != null {
        staging := null;
        return false, Some(RestartAtPartZero);
      }
      if keyframeRequired && !h.keyframe {
        discard := new FrameDiscard(part);
        return false, Some(KeyframeRequired);
      }
      if !h.keyframe && h.base != frameSequence {
        discard := new FrameDiscard(part);
        return false, Some(KeyframeRequired);
      }
      if h.keyframe && h.sequence <= frameSequence {
        return false, Some(StaleSequence);
      }
      var buffer := StagingBuffer();
      if !h.keyframe {
        CopyBuffer(buffer, pixels);
      }
      NoArea();
      staging := new FrameStaging(h, part.partCount, buffer);
      committed, err := ApplyPartRectangles(part);
    }

    method ContinueStaging(part: FramePart) returns (committed: bool, err: Option<Error>)
      requires Linked() && discard == null && generation > 0 && Sized(Model()) && spare.Length == pixels.Length
      requires AllRawSized(part.rectangles) && NonEmpty(part.rectangles)
      modifies this, spare, staging
      ensures Linked()
      ensures var (s, out) :=
                if !old(Model()).mode.Staging? then (old(Model()), Rejected(MissingPartZero))
                else if !SameFrame(old(Model()).mode.tail, part) then (old(Model()), Rejected(InconsistentHeader))
                else PlacePart(old(Model()), part, setup);
              Model() == s && committed == (out == Committed) && err == ErrorOf(out)
      ensures {pixels, spare} == old({pixels, spare})
      ensures discard == null && (staging == null || staging == old(staging))
    {
      hide PlacePart, Bounded;
      if staging == null {
        return false, Some(MissingPartZero);
      }
      if part.header != staging.header || part.partCount != staging.partCount {
        return false, Some(InconsistentHeader);
      }
      committed, err := ApplyPartRectangles(part);
    }

    method ApplyPartRectangles(part: FramePart) returns (committed: bool, err: Option<Error>)
      requires Linked() && staging != null && generation > 0 && Sized(Model()) && spare.Length == pixels.Length
      requires AllRawSized(part.rectangles) && NonEmpty(part.rectangles)
      modifies this, spare, staging
      ensures Linked() && discard == null
      ensures var (s, out) := PlacePart(old(Model()), part, setup);
              Model() == s && committed == (out == Committed) && err == ErrorOf(out)
      ensures {pixels, spare} == old({pixels, spare})
      ensures staging == null || staging == old(staging)
    {
      hide DrawPart, TotalArea;
      var s := staging;
      if part.partIndex != s.nextPartIndex {
        return false, Some(UnexpectedIndex);
      }
      if s.rectCount + |part.rectangles| > MaxRectangles() {
        return false, Some(TooManyRectangles);
      }
      err := DrawPartRectangles(s, part.rectangles);
      if err.Some? {
        return false, err;
      }
      s.nextPartIndex := s.nextPartIndex + 1;
      if s.nextPartIndex < s.partCount {
        return false, None;
      }
      committed, err := CommitStaging();
    }

    method DrawPartRectangles(s: FrameStaging, rs: seq<Rectangle>) returns (err: Option<Error>)
      requires width > 0 && s.pixels.Length == width * height * 4 && Tallied(s)
      requires AllRawSized(rs) && NonEmpty(rs)
      modifies s, s.pixels
      ensures (s.pixels[..], s.rectangles, err)
              == DrawPart(old(s.pixels[..]), old(s.rectangles), rs, width, height, setup.inflate)
      ensures Tallied(s) && s.nextPartIndex == old(s.nextPartIndex)
    {
      hide Blit, TotalArea;
      for i := 0 to |rs|
        invariant DrawPart(old(s.pixels[..]), old(s.rectangles), rs, width, height, setup.inflate)
                  == DrawPart(s.pixels[..], s.rectangles, rs[i..], width, height, setup.inflate)
        invariant Tallied(s) && s.nextPartIndex == old(s.nextPartIndex)
      {
        var r := rs[i];
        TakeNext(rs, i);
        AreaSnoc(s.rectangles, r.rect);
        if r.rect.x >= width || r.rect.y >= height || r.rect.w > width - r.rect.x || r.rect.h > height - r.rect.y {
          return Some(OutsideDisplay);
        }
        var overlaps := MeetsAny(s.rectangles, r.rect);
        if overlaps {
          return Some(OverlappingParts);
        }
        var decoded := DecodeRectangle(r, setup.inflate);
        if decoded.Err? {
          return Some(decoded.error);
        }
        BlitRectangle(s.pixels, decoded.value, r.rect, width, height);
        s.rectangles := s.rectangles + [r.rect];
        s.rectCount := s.rectCount + 1;
        s.covered := s.covered + r.rect.w * r.rect.h;
      }
      return None;
    }

    /** Swaps the reassembled buffer in; an incomplete keyframe is refused instead. */
    method CommitStaging() returns (committed: bool, err: Option<Error>)
      requires Linked() && staging != null
      modifies this
      ensures var keyframe := old(staging.header.keyframe);
              if keyframe && TotalArea(old(staging.rectangles)) != width * height then
                Model() == old(Model()) && !committed && err == Some(IncompleteKeyframe)
              else
                Model() == CommitFrame(old(Model()), old(staging.header), old(spare[..])) && committed && err == None
      ensures Linked() && discard == null && {pixels, spare} == old({pixels, spare})
      ensures staging == null || staging == old(staging)
    {
      hide TotalArea;
      var s := staging;
      if s.header.keyframe && s.covered != width * height {
        return false, Some(IncompleteKeyframe);
      }
      pixels, spare := s.pixels, pixels;
      frameSequence := s.header.sequence;
      keyframeRequired := false;
      staging := null;
      return true, None;
    }

    method DrainDiscard(part: FramePart) returns (err: Option<Error>)
      requires Linked() && discard != null
      modifies this, discard
      ensures Linked()
      ensures var (s, out) := DrainStep(old(Model()), part, setup);
              Model() == s && out != Committed && err == ErrorOf(out)
      ensures pixels == old(pixels) && spare == old(spare) && staging == null
      ensures discard == null || discard == old(discard)
    {
      hide DrainPart;
      var d := discard;
      if part.partIndex == 0 {
        return Some(RestartAtPartZero);
      }
      if part.header != d.header || part.partCount != d.partCount {
        return Some(InconsistentHeader);
      }
      if part.partIndex != d.nextPartIndex {
        return Some(UnexpectedIndex);
      }
      if d.rectCount + |part.rectangles| > MaxRectangles() {
        return Some(TooManyRectangles);
      }
      err := CheckDrained(d, part.rectangles);
      if err.Some? {
        return;
      }
      d.nextPartIndex := d.nextPartIndex + 1;
      if d.nextPartIndex >= d.partCount {
        discard := null;
      }
    }

    method CheckDrained(d: FrameDiscard, rs: seq<Rectangle>) returns (err: Option<Error>)
      requires d.rectCount == |d.rectangles|
      modifies d
      ensures (d.rectangles, err) == DrainPart(old(d.rectangles), rs, width, height)
      ensures d.rectCount == |d.rectangles| && d.nextPartIndex == old(d.nextPartIndex)
    {
      for i := 0 to |rs|
        invariant DrainPart(old(d.rectangles), rs, width, height) == DrainPart(d.rectangles, rs[i..], width, height)
        invariant d.rectCount == |d.rectangles| && d.nextPartIndex == old(d.nextPartIndex)
      {
        var r := rs[i].rect;
        TakeNext(rs, i);
        if r.x >= width || r.y >= height || r.w > width - r.x || r.h > height - r.y {
          return Some(OutsideDisplay);
        }
        var overlaps := MeetsAny(d.rectangles, r);
        if overlaps {
          return Some(OverlappingParts);
        }
        d.rectangles := d.rectangles + [r];
        d.rectCount := d.rectCount + 1;
      }
      return None;
    }

    /** The cumulative rectangle cap, clamped exactly like the per-message one. */
    function MaxRectangles(): (n: nat)
      ensures n == Bounded(setup.limits).maxRectangles
    {
      if setup.limits.maxRectangles == 0 || setup.limits.maxRectangles > MAX_RECTANGLES_HARD then MAX_RECTANGLES_HARD
      else setup.limits.maxRectangles
    }
  }
}
