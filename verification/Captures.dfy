/** What one capture becomes: the settings in force, the frame compared out of it, the messages
    it goes out in and the state it leaves. */
module Captures {
  import opened Types
  import opened Geometry
  import opened Raster
  import opened Messages
  import opened Validation
  import opened Tiling
  import opened Packer
  import opened Damage
  import opened Downscale
  import opened Host

  // ----- settings

  /** A setting in 1..cap is kept; zero or anything above means the cap. */
  function Within(given: nat, cap: nat): nat {
    if 1 <= given <= cap then given else cap
  }

  function Lesser(a: nat, b: nat): nat { if a <= b then a else b }

  /** The detector's settings: tiles of 64, six tenths dirty, and at most as many rectangles and
      as many bytes for each as the wire carries beside 53 bytes of headers. */
  lemma NormalizeExactly(c: Config, limits: Limits)
    ensures var n, wire := Normalize(c, limits), Within(limits.maxPixelPayload, 16777216);
            && n.tileSize == (if c.tileSize == 0 then 64 else c.tileSize)
            && n.dirtyRatio == (if 0.0 < c.dirtyRatio <= 1.0 then c.dirtyRatio else 0.6)
            && n.maxRectangles == Lesser(Within(c.maxRectangles, 256), Within(limits.maxRectangles, 256))
            && n.maxRectangleBytes
               == Lesser(Within(c.maxRectangleBytes, 16773120), if wire <= 53 then 0 else wire - 53)
  {
  }

  /** The service speaks version 2 only when asked to, and takes 500 input events a second
      unless told otherwise. */
  lemma ConfiguredExactly(version: nat, limits: Limits, damage: Config, codecs: Codecs, enableInput: bool, rate: nat)
    ensures var s := Configured(version, limits, damage, codecs, enableInput, rate);
            && s.version == (if version == 2 then 2 else 1)
            && s.limits.maxControlPayload == Within(limits.maxControlPayload, 65536)
            && s.limits.maxPixelPayload == Within(limits.maxPixelPayload, 16777216)
            && s.limits.maxRectangles == Within(limits.maxRectangles, 256)
            && s.limits.maxFrameParts == Within(limits.maxFrameParts, 32)
            && s.limits.maxDimension == Within(limits.maxDimension, 8192)
            && s.damage == Normalize(damage, limits) && s.codecs == codecs
            && s.enableInput == enableInput && s.maxInputPerSecond == (if rate == 0 then 500 else rate)
  {
  }

  // ----- one rectangle

  /** A rectangle travels in the shorter of its two forms, raw when neither is shorter. */
  lemma EncodeExactly(image: Image, r: Rect, deflate: seq<byte> -> seq<byte>)
    requires WellSized(image) && InBounds(r, image.width, image.height)
    ensures var e, raw := Encode(image, r, deflate), Crop(image, r);
            && e.rect == r && |raw| == r.w * r.h * 4
            && (if |deflate(raw)| < |raw| then e.encoding == 2 && e.pixels == deflate(raw)
                else e.encoding == 1 && e.pixels == raw)
  {
  }

  // ----- one comparison

  predicate Legal(image: Image) {
    && 1 <= image.width <= 8192 && 1 <= image.height <= 8192
    && |image.pixels| == 4 * (image.width * image.height)
  }

  /** What is remembered and what header the frame has: a frame takes the next sequence, a first
      or differently sized capture the next generation, a delta builds on the frame before; no
      frame, no change; and a keyframe that does not fit uses its numbers up. */
  lemma CompareExactly(m: Memory, image: Image, force: bool, c: Config, codecs: Codecs)
    requires ConfigOk(c) && MemoryOk(m, c, codecs.hash)
    ensures var (m', r) := Compare(m, image, force, c, codecs);
            var moved := m.generation == 0 || image.width != m.previous.width || image.height != m.previous.height;
            var generation := if moved then m.generation + 1 else m.generation;
            && (r == Err(InvalidImage) <==> !Legal(image))
            && (r == Err(InvalidImage) || r == Ok(None) ==> m' == m)
            && (r.Err? && r.error != InvalidImage ==>
                  r.error == RectLimit && m' == m.(generation := generation, sequence := m.sequence + 1))
            && (r.Ok? && r.value.Some? ==>
                  && m'.previous == image && m'.generation == generation && m'.sequence == m.sequence + 1
                  && var h := r.value.value.header;
                     && h.generation == generation && h.sequence == m.sequence + 1
                     && h.base == (if h.keyframe then 0 else m.sequence))
  {
    hide Hashes, StoredHashes, Dirty, DamageRects, DirtyTiles, TotalArea, TooDirty, Bands, BandAll, EncodeAll;
    assert ValidImage(image) <==> Legal(image);
  }

  /** The rectangles of a frame: bands of the whole image, or of the damage since the last one. */
  ghost function Banded(m: Memory, image: Image, keyframe: bool, c: Config, codecs: Codecs): seq<Rect>
    requires ConfigOk(c) && ValidImage(image)
    requires !keyframe ==>
               ValidImage(m.previous) && image.width == m.previous.width && image.height == m.previous.height
  {
    if keyframe then Bands(Rect(0, 0, image.width, image.height), c.maxRectangleBytes)
    else
      BandAll(DamageRects(Dirty(image, m, c.tileSize, codecs.hash), Grid(image.width, image.height, c.tileSize)),
              c.maxRectangleBytes)
  }

  /** A frame holds each of its bands, in order, in its shorter form. */
  lemma FrameHoldsBands(m: Memory, image: Image, force: bool, c: Config, codecs: Codecs)
    requires ConfigOk(c) && MemoryOk(m, c, codecs.hash)
    ensures var r := Compare(m, image, force, c, codecs).1;
            r.Ok? && r.value.Some? ==>
              var f := r.value.value;
              && ValidImage(image)
              && (!f.header.keyframe ==>
                    ValidImage(m.previous) && image.width == m.previous.width && image.height == m.previous.height)
              && var bands := Banded(m, image, f.header.keyframe, c, codecs);
                 && |f.rectangles| == |bands| && AllInBounds(bands, image.width, image.height)
                 && forall k :: 0 <= k < |bands| ==> f.rectangles[k] == Encode(image, bands[k], codecs.deflate)
  {
    hide Hashes, StoredHashes, DamageRects, DirtyTiles, TotalArea, TooDirty, Bands, BandAll, Encode;
    if ValidImage(image) {
      WholeImageBands(image, c.maxRectangleBytes);
      if m.previous.pixels != [] && image.width == m.previous.width && image.height == m.previous.height {
        SameDirty(m, image, c, codecs);
        DamageInBounds(Dirty(image, m, c.tileSize, codecs.hash), GridOf(image, c.tileSize), c.maxRectangleBytes);
      }
    }
  }

  lemma SameDirty(m: Memory, image: Image, c: Config, codecs: Codecs)
    requires ConfigOk(c) && ValidImage(image) && ValidImage(m.previous)
    requires image.width == m.previous.width && image.height == m.previous.height
    ensures forall g, s :: Dirty(image, m.(generation := g, sequence := s), c.tileSize, codecs.hash)
                           == Dirty(image, m, c.tileSize, codecs.hash)
  {
    hide TileCount, TileBytes;
  }

  // ----- v1 sees a capture one frame can carry

  /** v2 captures go through as they are, v1 ones at the smallest reduction that fits the budget. */
  lemma PrepareExactly(image: Image, c: Setup) returns (k: nat)
    requires Takes(image, c) && 0 < image.width < 0x1_0000_0000 && 0 < image.height < 0x1_0000_0000
    ensures if c.version == 2 then Prepare(image, c) == image
            else
              && (k == 0 || Readable(image, k)) && Prepare(image, c) == Downscaled(image, k)
              && (forall j :: 0 <= j < k ==> !FitsAt(image.width, image.height, c.damage.maxRectangleBytes, j))
              && (FitsAt(image.width, image.height, c.damage.maxRectangleBytes, k)
                  || Shift(image.width, k + 1) == 0 || Shift(image.height, k + 1) == 0)
  {
    hide Factor, FitsAt, Readable, AllAverages;
    k := Factor(image.width, image.height, c.damage.maxRectangleBytes);
    FactorIsSmallestFitting(image.width, image.height, c.damage.maxRectangleBytes);
  }

  // ----- from a frame to messages

  /** v1 sends every frame whole; v2 the frames that fit one part, and the others in their fewest
      parts, numbered in order under the frame's own header. */
  lemma PlanExactly(f: Frame, c: Setup) returns (gs: seq<Group>)
    ensures var plan := PlanFrame(f, c);
            var budget := Bounded(c.limits).maxPixelPayload;
            if c.version != 2 || (f.rectangles != [] && 31 + ListSize(f.rectangles) <= budget) then plan == Ok(Whole(f))
            else if plan.Ok? then
              && plan.value.Parts? && |plan.value.parts| == |gs|
              && PacksWithin(f, c.limits, gs)
              && (forall other :: Packs(other, f.rectangles, budget) ==> |gs| <= |other|)
              && (forall k :: 0 <= k < |gs| ==> plan.value.parts[k] == FramePart(f.header, k, |gs|, gs[k]))
            else f.rectangles == [] || !exists other :: PacksWithin(f, c.limits, other)
  {
    hide Greedy, Packs, Bounded;
    gs := Greedy(f.rectangles, Bounded(c.limits).maxPixelPayload);
    if c.version == 2 && f.rectangles != [] {
      SplitVerdicts(f, c.limits);
      if Split(f, c.limits).Ok? {
        SplitIsMinimalPacking(f, c.limits);
      }
    }
  }

  /** Sending goes on up to the first message the encoder refuses, which says why. */
  lemma {:induction false} SendAllExactly(ms: seq<Message>, c: Setup) returns (n: nat)
    ensures n <= |ms| && SendAll(ms, c).0 == ms[..n]
    ensures forall j :: 0 <= j < n ==> SendError(ms[j], c) == None
    ensures SendAll(ms, c).1 == if n < |ms| then SendError(ms[n], c) else None
    ensures n < |ms| ==> SendError(ms[n], c).Some?
    decreases |ms|
  {
    hide SendError;
    n := 0;
    if ms != [] && SendError(ms[0], c) == None {
      var m := SendAllExactly(ms[1..], c);
      n := m + 1;
      assert ms[..n] == [ms[0]] + ms[1..][..m];
    }
  }

  lemma SendErrorExactly(m: Message, c: Setup)
    ensures SendError(m, c)
            == if MessageError(m, c.limits).Some? then MessageError(m, c.limits)
               else if m.Part? && c.version <= 1 then Some(BadVersion)
               else None
  {
    hide MessageError;
  }

  /** What a plan's frame goes out as. */
  ghost predicate GoesOutAs(ms: seq<Message>, plan: Plan) {
    match plan
    case Whole(f) => |ms| == 1 && ms[0] == WholeFrame(f)
    case Parts(parts) => |ms| == |parts| && forall k :: 0 <= k < |parts| ==> ms[k] == Part(parts[k])
  }

  /** One capture: the request for a keyframe is spent and the native dimensions are the capture's
      whatever comes of it; without a frame or a plan nothing is sent; a frame of a new generation
      is announced first, with the dimensions it has, and starts the input numbers over. */
  lemma CaptureExactly(h: State, image: Image, force: bool, c: Setup) returns (ms: seq<Message>)
    requires SetupOk(c) && MemoryOk(h.memory, c.damage, c.codecs.hash) && Takes(image, c)
    ensures var (h', sent, err) := SendCapture(h, image, force, c);
            var prepared := Prepare(image, c);
            var (m', r) := Compare(h.memory, prepared, force || h.keyframeRequested, c.damage, c.codecs);
            var idle := h.(memory := m', keyframeRequested := false,
                           nativeWidth := image.width, nativeHeight := image.height);
            if r.Err? then h' == idle && sent == [] && err == Some(r.error)
            else if r.value == None then h' == idle && sent == [] && err == None
            else
              var f := r.value.value;
              var plan := PlanFrame(f, c);
              if plan.Err? then h' == idle && sent == [] && err == Some(plan.error)
              else
                && GoesOutAs(ms, plan.value)
                && (if f.header.generation == h.generation then h' == idle && (sent, err) == SendAll(ms, c)
                    else
                      var display := Display(DisplayConfig(f.header.generation, prepared.width, prepared.height, 0, 0, 1));
                      && (sent, err) == SendAll([display] + ms, c)
                      && h' == if sent == [] then idle
                               else idle.(generation := f.header.generation, width := prepared.width,
                                          height := prepared.height, lastInputSeq := 0))
  {
    hide Compare, PlanFrame, Prepare, MessageError, SendError;
    ms := [];
    var r := Compare(h.memory, Prepare(image, c), force || h.keyframeRequested, c.damage, c.codecs).1;
    if r.Ok? && r.value.Some? && PlanFrame(r.value.value, c).Ok? {
      ms := PlanMessages(PlanFrame(r.value.value, c).value);
      var display := Display(DisplayConfig(r.value.value.header.generation, Prepare(image, c).width,
                                           Prepare(image, c).height, 0, 0, 1));
      assert ([display] + ms)[1..] == ms && ([display] + ms)[0] == display;
    }
  }
}
