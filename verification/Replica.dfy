/** The client's framebuffer follows the host's image over every run of captures. */
module Replica {
  import opened Types
  import opened Geometry
  import opened Raster
  import opened Messages
  import opened Validation
  import opened Packer
  import opened Tiling
  import opened Damage
  import Host
  import opened ClientState
  import opened ClientRuns
  import opened Reassembly

  /** zlib as an abstract pair. */
  ghost predicate Lossless(codecs: Codecs, inflate: seq<byte> -> Option<seq<byte>>) {
    forall x: seq<byte> :: codecs.deflate(x) != [] && inflate(codecs.deflate(x)) == Some(x)
  }

  /** The tile size is one whose arithmetic wraps for no legal image. */
  predicate Tiled(c: Host.Setup) {
    Host.SetupOk(c) && ExactTiles(c.damage.tileSize)
  }

  /** Host and client work under the same effective limits and inverse codecs. */
  ghost predicate Matched(c: Host.Setup, client: Setup) {
    && Tiled(c)
    && Bounded(client.limits) == c.limits
    && Lossless(c.codecs, client.inflate)
  }

  /** The framebuffer's events among the messages a client receives. */
  function EventsOf(ms: seq<Message>): seq<Event> {
    if ms == [] then []
    else
      var rest := EventsOf(ms[1..]);
      match ms[0]
      case Display(c) => [Configure(c)] + rest
      case WholeFrame(f) => [Apply(f)] + rest
      case Part(p) => [ApplyPart(p)] + rest
      case _ => rest
  }

  // ----- what drawing encoded rectangles leaves

  /** The image's bytes inside the rectangles, the old bytes elsewhere. */
  ghost function Painted(buf: seq<byte>, image: Image, rs: seq<Rect>): (out: seq<byte>)
    requires 0 < image.width && |buf| == |image.pixels|
    ensures |out| == |buf|
  {
    seq<byte>(|buf|, i requires 0 <= i < |buf| => if HitsAny(rs, i, image.width) then image.pixels[i] else buf[i])
  }

  lemma DecodeOfEncode(image: Image, r: Rect, codecs: Codecs, inflate: seq<byte> -> Option<seq<byte>>)
    requires WellSized(image) && InBounds(r, image.width, image.height) && Lossless(codecs, inflate)
    requires Area(r) * 4 <= MAX_PIXEL_PAYLOAD_HARD
    ensures RawSized(Encode(image, r, codecs.deflate))
    ensures Decode(Encode(image, r, codecs.deflate), inflate) == Ok(Crop(image, r))
  {
    hide Crop;
  }

  lemma BlitPaints(buf: seq<byte>, image: Image, r: Rect, i: nat)
    requires WellSized(image) && InBounds(r, image.width, image.height)
    requires |buf| == |image.pixels| && i < |buf|
    ensures Blit(buf, Patch(r, Crop(image, r)), image.width)[i]
            == if Hits(r, i, image.width) then image.pixels[i] else buf[i]
  {
    if Hits(r, i, image.width) {
      BlitOfCrop(image, r, i);
    }
  }

  lemma HitsFirst(rs: seq<Rect>, i: nat, width: nat)
    requires width > 0 && rs != []
    ensures HitsAny(rs, i, width) <==> Hits(rs[0], i, width) || HitsAny(rs[1..], i, width)
  {
    if HitsAny(rs, i, width) {
      var k :| 0 <= k < |rs| && Hits(rs[k], i, width);
      assert k > 0 ==> Hits(rs[1..][k - 1], i, width);
    }
    if HitsAny(rs[1..], i, width) {
      var k :| 0 <= k < |rs[1..]| && Hits(rs[1..][k], i, width);
      assert Hits(rs[k + 1], i, width);
    }
  }

  ghost predicate Decodable(rs: seq<Rect>) {
    forall k :: 0 <= k < |rs| ==> Area(rs[k]) * 4 <= MAX_PIXEL_PAYLOAD_HARD
  }

  lemma {:induction false} DrawEncoded(buf: seq<byte>, image: Image, rs: seq<Rect>, codecs: Codecs,
                                       inflate: seq<byte> -> Option<seq<byte>>)
    requires ValidImage(image) && AllInBounds(rs, image.width, image.height) && Decodable(rs)
    requires Lossless(codecs, inflate) && |buf| == |image.pixels|
    ensures AllRawSized(EncodeAll(image, rs, codecs.deflate))
    ensures DrawFrame(buf, EncodeAll(image, rs, codecs.deflate), image.width, image.height, inflate)
            == (Painted(buf, image, rs), None)
    decreases |rs|
  {
    hide Encode, Decode, Crop, Blit, HitsAny;
    var encoded := EncodeAll(image, rs, codecs.deflate);
    if rs == [] {
      PaintedNothing(buf, image);
    } else {
      var r := rs[0];
      DecodeOfEncode(image, r, codecs, inflate);
      var next := Blit(buf, Patch(r, Crop(image, r)), image.width);
      assert encoded[1..] == EncodeAll(image, rs[1..], codecs.deflate);
      DrawEncoded(next, image, rs[1..], codecs, inflate);
      RawSizedCons(encoded);
      PaintedFirst(buf, image, rs);
      assert encoded[0].rect == r && Encode(image, r, codecs.deflate) == encoded[0];
    }
  }

  lemma RawSizedCons(rs: seq<Rectangle>)
    requires rs != [] && RawSized(rs[0]) && AllRawSized(rs[1..])
    ensures AllRawSized(rs)
  {
    assert rs == [rs[0]] + rs[1..];
  }

  lemma PaintedNothing(buf: seq<byte>, image: Image)
    requires 0 < image.width && |buf| == |image.pixels|
    ensures Painted(buf, image, []) == buf
  {
  }

  lemma PaintedFirst(buf: seq<byte>, image: Image, rs: seq<Rect>)
    requires ValidImage(image) && |buf| == |image.pixels| && rs != []
    requires InBounds(rs[0], image.width, image.height)
    ensures Painted(Blit(buf, Patch(rs[0], Crop(image, rs[0])), image.width), image, rs[1..]) == Painted(buf, image, rs)
  {
    hide Crop, Blit, HitsAny;
    var next := Blit(buf, Patch(rs[0], Crop(image, rs[0])), image.width);
    var a, b := Painted(next, image, rs[1..]), Painted(buf, image, rs);
    forall i | 0 <= i < |buf|
      ensures a[i] == b[i]
    {
      BlitPaints(buf, image, rs[0], i);
      HitsFirst(rs, i, image.width);
    }
  }

  // ----- a frame the host built lands on an idle client

  /** The client would accept this header on a frame of this image. */
  ghost predicate Welcome(s: State, h: Header, image: Image, client: Setup) {
    && Inv(s, client) && s.mode.Idle? && 0 < s.generation
    && s.width == image.width && s.height == image.height
    && ValidHeader(h) && h.generation == s.generation && s.frameSequence < h.sequence
    && (!h.keyframe ==> !s.keyframeRequired && h.base == s.frameSequence)
  }

  ghost function Landed(s: State, h: Header, image: Image, rs: seq<Rect>): State
    requires ValidImage(image) && |s.pixels| == |s.scratch| == |image.pixels|
  {
    CommitFrame(s, h, Painted(if h.keyframe then s.scratch else s.pixels, image, rs))
  }

  ghost predicate NoneRejected(outs: seq<Outcome>) {
    forall k :: 0 <= k < |outs| ==> !outs[k].Rejected?
  }

  lemma WholeLands(s: State, h: Header, image: Image, rs: seq<Rect>, c: Host.Setup, client: Setup)
    requires Matched(c, client) && ValidImage(image) && Welcome(s, h, image, client)
    requires AllInBounds(rs, image.width, image.height) && Decodable(rs)
    requires h.keyframe ==> TotalArea(rs) == image.width * image.height
    ensures AllRawSized(EncodeAll(image, rs, c.codecs.deflate))
    ensures |s.pixels| == |s.scratch| == |image.pixels|
    ensures ApplyWhole(s, h, EncodeAll(image, rs, c.codecs.deflate), client) == (Landed(s, h, image, rs), Committed)
  {
    hide Painted, EncodeAll, DrawFrame;
    DrawEncoded(if h.keyframe then s.scratch else s.pixels, image, rs, c.codecs, client.inflate);
  }

  /** Everything the host knows about a frame it is about to send. */
  ghost predicate Sendable(f: Frame, image: Image, rs: seq<Rect>, c: Host.Setup) {
    && ValidImage(image) && AllInBounds(rs, image.width, image.height) && Disjoint(rs)
    && ValidHeader(f.header) && 0 < |rs| <= c.damage.maxRectangles
    && f.rectangles == EncodeAll(image, rs, c.codecs.deflate)
    && (f.header.keyframe ==> TotalArea(rs) == image.width * image.height)
  }

  lemma WholeMessageLands(s: State, f: Frame, image: Image, rs: seq<Rect>, c: Host.Setup, client: Setup)
    requires Matched(c, client) && Sendable(f, image, rs, c) && Welcome(s, f.header, image, client)
    requires FrameError(f, c.limits) == None
    ensures |s.pixels| == |s.scratch| == |image.pixels|
    ensures Run(s, [Apply(f)], client) == (Landed(s, f.header, image, rs), [Committed])
  {
    hide Painted, EncodeAll, DrawFrame, ApplyWhole, Landed, ListError, Disjoint;
    FrameAccepted(f, c.limits);
    DecodableWhenValid(f.rectangles, rs, c.limits);
    WholeLands(s, f.header, image, rs, c, client);
    SameVerdict(f, c.limits, client.limits);
    RunOne(s, Apply(f), client);
  }

  lemma SameVerdict(f: Frame, a: Limits, b: Limits)
    requires Bounded(a) == Bounded(b)
    ensures FrameError(f, a) == FrameError(f, b)
  {
    hide ListError, Bounded;
  }

  lemma RunOne(s: State, e: Event, setup: Setup)
    requires Inv(s, setup)
    ensures Run(s, [e], setup) == (Step(s, e, setup).0, [Step(s, e, setup).1])
  {
    hide Step;
    StepKeepsInvariant(s, e, setup);
    RunFirst(s, [e], setup);
    assert [e][1..] == [];
    var rest := Run(Step(s, e, setup).0, [], setup);
    assert rest == (Step(s, e, setup).0, []);
    assert [Step(s, e, setup).1] + rest.1 == [Step(s, e, setup).1];
  }

  lemma DecodableWhenValid(encoded: seq<Rectangle>, rs: seq<Rect>, limits: Limits)
    requires Rects(encoded) == rs && limits.maxPixelPayload <= MAX_PIXEL_PAYLOAD_HARD
    requires forall k :: 0 <= k < |encoded| ==> ValidRectangle(encoded[k], limits)
    ensures Decodable(rs)
  {
    forall k | 0 <= k < |rs|
      ensures Area(rs[k]) * 4 <= MAX_PIXEL_PAYLOAD_HARD
    {
      assert ValidRectangle(encoded[k], limits);
      assert rs[k] == encoded[k].rect;
    }
  }

  // ----- a frame that travels in parts

  lemma {:induction false} ConcatValid(gs: seq<Group>, limits: Limits)
    requires forall k :: 0 <= k < |gs| ==> forall j :: 0 <= j < |gs[k]| ==> ValidRectangle(gs[k][j], limits)
    ensures forall j :: 0 <= j < |Concat(gs)| ==> ValidRectangle(Concat(gs)[j], limits)
  {
    if gs != [] {
      ConcatValid(gs[1..], limits);
    }
  }

  /** A split frame whose every part was accepted is a valid logical frame. */
  lemma PartsMakeValidFrame(f: Frame, image: Image, rs: seq<Rect>, c: Host.Setup, l: Limits)
    requires Tiled(c) && Sendable(f, image, rs, c) && Bounded(l) == c.limits
    requires Split(f, c.limits).Ok?
    requires forall k :: 0 <= k < |Split(f, c.limits).value| ==> PartError(Split(f, c.limits).value[k], c.limits) == None
    ensures ValidLogicalFrame(f.header, f.rectangles, l) && Decodable(rs)
    ensures Split(f, l) == Split(f, c.limits)
  {
    hide PartError, Greedy, ListError, EncodeAll, Packable, Disjoint;
    var gs := Greedy(f.rectangles, c.limits.maxPixelPayload);
    SplitIsMinimalPacking(f, c.limits);
    var parts := Split(f, c.limits).value;
    assert parts == Stamp(f.header, gs);
    forall k | 0 <= k < |gs|
      ensures forall j :: 0 <= j < |gs[k]| ==> ValidRectangle(gs[k][j], c.limits)
    {
      assert parts[k] == FramePart(f.header, k, |gs|, gs[k]);
      PartAccepted(parts[k], c.limits);
    }
    ConcatValid(gs, c.limits);
    DecodableWhenValid(f.rectangles, rs, c.limits);
  }

  lemma PartsLand(s: State, f: Frame, image: Image, rs: seq<Rect>, c: Host.Setup, client: Setup)
    requires Matched(c, client) && Sendable(f, image, rs, c) && Welcome(s, f.header, image, client)
    requires Split(f, c.limits).Ok?
    requires forall k :: 0 <= k < |Split(f, c.limits).value| ==> PartError(Split(f, c.limits).value[k], c.limits) == None
    ensures |s.pixels| == |s.scratch| == |image.pixels|
    ensures var (s', outs) := Run(s, PartEvents(Split(f, c.limits).value), client);
            s' == Landed(s, f.header, image, rs) && ConsumedThenCommitted(outs)
  {
    hide Painted, EncodeAll, ApplyWhole, Landed, Split, PartError, Disjoint, ValidLogicalFrame;
    PartsMakeValidFrame(f, image, rs, c, client.limits);
    WholeLands(s, f.header, image, rs, c, client);
    SplitRefinesWhole(s, f, client);
  }

  lemma {:induction false} PartMessageEvents(parts: seq<FramePart>)
    ensures EventsOf(Host.PlanMessages(Host.Parts(parts))) == PartEvents(parts)
  {
    var ms := Host.PlanMessages(Host.Parts(parts));
    if parts == [] {
    } else {
      PartMessageEvents(parts[1..]);
      assert ms[1..] == Host.PlanMessages(Host.Parts(parts[1..]));
      assert PartEvents(parts) == [ApplyPart(parts[0])] + PartEvents(parts[1..]);
    }
  }

  // ----- whatever plan the host chose, the frame lands

  lemma {:induction false} AllSent(ms: seq<Message>, c: Host.Setup)
    requires Host.SendAll(ms, c).1 == None
    ensures Host.SendAll(ms, c).0 == ms
    ensures forall k :: 0 <= k < |ms| ==> Host.SendError(ms[k], c) == None
  {
    hide Host.SendError;
    if ms != [] {
      AllSent(ms[1..], c);
      assert forall k :: 0 < k < |ms| ==> ms[k] == ms[1..][k - 1];
    }
  }

  lemma PlanLands(s: State, f: Frame, image: Image, rs: seq<Rect>, plan: Host.Plan, c: Host.Setup, client: Setup)
    requires Matched(c, client) && Sendable(f, image, rs, c) && Welcome(s, f.header, image, client)
    requires Host.PlanFrame(f, c) == Ok(plan) && Host.SendAll(Host.PlanMessages(plan), c).1 == None
    ensures |s.pixels| == |s.scratch| == |image.pixels|
    ensures var (s', outs) := Run(s, EventsOf(Host.SendAll(Host.PlanMessages(plan), c).0), client);
            s' == Landed(s, f.header, image, rs) && NoneRejected(outs)
  {
    hide Run, Landed, Split, PartError, FrameError, EncodeAll, Inv;
    var ms := Host.PlanMessages(plan);
    AllSent(ms, c);
    match plan
    case Whole(_) =>
      assert ms[0] == WholeFrame(f) && ms[1..] == [];
      assert EventsOf(ms) == [Apply(f)];
      WholeMessageLands(s, f, image, rs, c, client);
    case Parts(parts) =>
      PartMessageEvents(parts);
      forall k | 0 <= k < |parts|
        ensures PartError(parts[k], c.limits) == None
      {
        assert ms[k] == Part(parts[k]);
        assert Host.SendError(ms[k], c) == None;
      }
      PartsLand(s, f, image, rs, c, client);
  }

  // ----- what a comparison hands over

  lemma WholeImageTiled(image: Image, budget: nat)
    requires ValidImage(image)
    ensures var rs := Bands(WholeImage(image), budget);
            && Disjoint(rs) && AllInBounds(rs, image.width, image.height) && rs != []
            && TotalArea(rs) == image.width * image.height
            && forall px: nat, py: nat :: px < image.width && py < image.height ==> Covers(rs, px, py)
  {
    BandsExact(WholeImage(image), budget, image.width, image.height);
    CoverageByCounting(Bands(WholeImage(image), budget), image.width, image.height);
  }

  /** A full frame tiles the image and is remembered as sent. */
  lemma FullFrameSends(m: Memory, image: Image, c: Host.Setup)
    requires Tiled(c) && ValidImage(image) && 0 < m.generation && 0 < m.sequence
    requires FullFrame(m, image, c.damage, c.codecs).1.Ok?
    ensures var (m', r) := FullFrame(m, image, c.damage, c.codecs);
            && r.value.Some?
            && m' == Remember(m, image, c.damage.tileSize, c.codecs.hash)
            && r.value.value.header == Header(m.generation, m.sequence, 0, true)
            && Sendable(r.value.value, image, Bands(WholeImage(image), c.damage.maxRectangleBytes), c)
  {
    hide Hashes, EncodeAll, Bands;
    WholeImageTiled(image, c.damage.maxRectangleBytes);
  }

  ghost predicate SameGeometry(m: Memory, image: Image) {
    ValidImage(m.previous) && m.previous.width == image.width && m.previous.height == image.height
  }

  /** A delta covers exactly the dirty tiles. */
  ghost predicate IsDelta(f: Frame, m: Memory, image: Image, rs: seq<Rect>, c: Host.Setup)
    requires ValidImage(image) && SameGeometry(m, image) && Tiled(c)
  {
    var g := GridOf(image, c.damage.tileSize);
    var d := Dirty(image, m, c.damage.tileSize, c.codecs.hash);
    && f.header == Header(m.generation, m.sequence + 1, m.sequence, false)
    && forall px: nat, py: nat :: px < g.width && py < g.height ==> (Covers(rs, px, py) <==> IsDirty(d, g, px, py))
  }

  lemma TilesSend(m: Memory, image: Image, c: Host.Setup) returns (rs: seq<Rect>)
    requires Tiled(c) && ValidImage(image) && SameGeometry(m, image) && 0 < m.generation && 0 < m.sequence
    requires var (_, r) := CompareTiles(m.(sequence := m.sequence + 1), image, c.damage, c.codecs);
             r.Ok? && r.value.Some?
    ensures var (m', r) := CompareTiles(m.(sequence := m.sequence + 1), image, c.damage, c.codecs);
            var f := r.value.value;
            && m' == Remember(m.(sequence := m.sequence + 1), image, c.damage.tileSize, c.codecs.hash)
            && Sendable(f, image, rs, c)
            && (if f.header.keyframe then
                  f.header == Header(m.generation, m.sequence + 1, 0, true)
                  && forall px: nat, py: nat :: px < image.width && py < image.height ==> Covers(rs, px, py)
                else IsDelta(f, m, image, rs, c))
  {
    hide Hashes, Dirty, DamageRects, DirtyTiles, TotalArea, TooDirty, EncodeAll, FullFrame, BandAll, Bands, IsDirty;
    var next := m.(sequence := m.sequence + 1);
    var g := GridOf(image, c.damage.tileSize);
    var dirty := Dirty(image, next, c.damage.tileSize, c.codecs.hash);
    var rects := DamageRects(dirty, g);
    SameDirty(image, m, next, c.damage.tileSize, c.codecs.hash);
    var (_, r) := CompareTiles(next, image, c.damage, c.codecs);
    if r.value.value.header.keyframe {
      rs := Bands(WholeImage(image), c.damage.maxRectangleBytes);
      FullFrameSends(next, image, c);
      WholeImageTiled(image, c.damage.maxRectangleBytes);
    } else {
      rs := BandAll(rects, c.damage.maxRectangleBytes);
      DamageRectsExact(dirty, g);
      BandAllExact(rects, c.damage.maxRectangleBytes, g.width, g.height);
      if FullFrame(next, image, c.damage, c.codecs).1.Ok? {
        FullFrameSends(next, image, c);
      }
    }
  }

  lemma SameDirty(image: Image, a: Memory, b: Memory, tileSize: nat, hash: seq<byte> -> nat)
    requires ValidImage(image) && SameGeometry(a, image) && 0 < tileSize
    requires a.previous == b.previous && a.hashes == b.hashes
    ensures Dirty(image, a, tileSize, hash) == Dirty(image, b, tileSize, hash)
  {
    hide TileBytes;
  }

  function GeometryChanged(m: Memory, image: Image): bool {
    m.previous.width != image.width || m.previous.height != image.height
  }

  function NextGeneration(m: Memory, image: Image): nat {
    if m.generation == 0 || GeometryChanged(m, image) then m.generation + 1 else m.generation
  }

  ghost predicate CoversImage(rs: seq<Rect>, image: Image) {
    forall px: nat, py: nat :: px < image.width && py < image.height ==> Covers(rs, px, py)
  }

  /** f is the frame of a capture, over rectangles rs, that turned memory m into m'. */
  ghost predicate Captured(m: Memory, m': Memory, f: Frame, image: Image, rs: seq<Rect>, c: Host.Setup)
    requires Tiled(c)
  {
    && ValidImage(image)
    && m' == Memory(image, Hashes(image, c.damage.tileSize, c.codecs.hash), NextGeneration(m, image), m.sequence + 1)
    && Sendable(f, image, rs, c)
    && f.header.generation == m'.generation && f.header.sequence == m'.sequence
    && (if f.header.keyframe then CoversImage(rs, image)
        else m.previous.pixels != [] && SameGeometry(m, image) && IsDelta(f, m, image, rs, c))
  }

  /** Whatever frame a capture yields: a keyframe tiling the image, or a delta over
      exactly the dirty tiles of an unchanged geometry. Either way it is remembered. */
  lemma CaptureSends(m: Memory, image: Image, force: bool, c: Host.Setup) returns (rs: seq<Rect>)
    requires Tiled(c) && MemoryOk(m, c.damage, c.codecs.hash)
    requires var (_, r) := Compare(m, image, force, c.damage, c.codecs);
             r.Ok? && r.value.Some?
    ensures var (m', r) := Compare(m, image, force, c.damage, c.codecs);
            && Captured(m, m', r.value.value, image, rs, c)
            && (force ==> r.value.value.header.keyframe)
  {
    hide Hashes, FullFrame, CompareTiles, Bands, EncodeAll, IsDirty;
    var next := m.(generation := NextGeneration(m, image), sequence := m.sequence + 1);
    if m.previous.pixels == [] || GeometryChanged(m, image) || force {
      rs := Bands(WholeImage(image), c.damage.maxRectangleBytes);
      FullFrameSends(next, image, c);
      WholeImageTiled(image, c.damage.maxRectangleBytes);
    } else {
      rs := TilesSend(m, image, c);
    }
  }

  // ----- the replica invariant

  function ClientImage(s: State): Image { Image(s.width, s.height, s.pixels) }

  /** The client shows the image's geometry, and every tile hashes as the image's does. */
  ghost predicate Follows(s: State, image: Image, c: Host.Setup)
    requires Tiled(c)
  {
    && ValidImage(image) && s.width == image.width && s.height == image.height && ValidImage(ClientImage(s))
    && Hashes(ClientImage(s), c.damage.tileSize, c.codecs.hash) == Hashes(image, c.damage.tileSize, c.codecs.hash)
  }

  /** Every tile now shown is the image's, or was shown before. */
  ghost predicate Patchwork(s: State, s': State, image: Image, c: Host.Setup)
    requires Tiled(c) && Follows(s', image, c)
  {
    s'.pixels == image.pixels ||
    (&& ValidImage(ClientImage(s)) && s.width == image.width && s.height == image.height
     && forall i :: 0 <= i < TileCount(image, c.damage.tileSize) ==>
          TileBytes(ClientImage(s'), c.damage.tileSize, i) == TileBytes(image, c.damage.tileSize, i)
          || TileBytes(ClientImage(s'), c.damage.tileSize, i) == TileBytes(ClientImage(s), c.damage.tileSize, i))
  }

  /** A tile that hashes like the image's is left as it was. */
  ghost predicate Untouched(s: State, s': State, image: Image, c: Host.Setup)
    requires Tiled(c) && Follows(s', image, c)
  {
    && ValidImage(ClientImage(s)) && s.width == image.width && s.height == image.height
    && forall i :: 0 <= i < TileCount(image, c.damage.tileSize) ==>
         c.codecs.hash(TileBytes(ClientImage(s), c.damage.tileSize, i))
           == c.codecs.hash(TileBytes(image, c.damage.tileSize, i))
         ==> TileBytes(ClientImage(s'), c.damage.tileSize, i) == TileBytes(ClientImage(s), c.damage.tileSize, i)
  }

  /** Between captures: the client is idle at the detector's position in the stream and
      follows the image the detector last sent. */
  ghost predicate InSync(h: Host.State, s: State, c: Host.Setup, client: Setup)
    requires Tiled(c)
  {
    && Inv(s, client) && s.mode.Idle? && MemoryOk(h.memory, c.damage, c.codecs.hash)
    && s.generation == h.generation == h.memory.generation
    && if h.memory.previous.pixels == [] then h.memory == NO_MEMORY
       else s.frameSequence == h.memory.sequence && !s.keyframeRequired
            && h.width == s.width && h.height == s.height
            && Follows(s, h.memory.previous, c)
  }

  lemma PaintedWhole(buf: seq<byte>, image: Image, rs: seq<Rect>)
    requires ValidImage(image) && |buf| == |image.pixels| && CoversImage(rs, image)
    ensures Painted(buf, image, rs) == image.pixels
  {
    var out := Painted(buf, image, rs);
    forall i | 0 <= i < |buf|
      ensures out[i] == image.pixels[i]
    {
      RowWithinImage(i, image.width, image.height);
      assert Covers(rs, Col(i, image.width), Row(i, image.width));
      var k :| 0 <= k < |rs| && Inside(rs[k], Col(i, image.width), Row(i, image.width));
      assert Hits(rs[k], i, image.width);
    }
  }

  /** A pixel of tile i is dirty exactly when tile i is. */
  lemma DirtyPixelOfTile(d: seq<bool>, g: Grid, i: nat, px: nat, py: nat)
    requires DirtyMap(d, g) && i < |d| && px < g.width && py < g.height && Inside(TileRect(g, i), px, py)
    ensures IsDirty(d, g, px, py) <==> d[i]
  {
    hide TileAt, TileRect, IsDirty;
    TileHolds(g, i, px, py);
    DirtyAt(d, g, px, py);
  }

  lemma HitsIsCovers(rs: seq<Rect>, i: nat, width: nat)
    requires width > 0
    ensures HitsAny(rs, i, width) <==> Covers(rs, Col(i, width), Row(i, width))
  {
    if Covers(rs, Col(i, width), Row(i, width)) {
      var k :| 0 <= k < |rs| && Inside(rs[k], Col(i, width), Row(i, width));
      assert Hits(rs[k], i, width);
    }
  }

  ghost predicate CoversDirty(rs: seq<Rect>, d: seq<bool>, g: Grid)
    requires DirtyMap(d, g)
  {
    forall px: nat, py: nat :: px < g.width && py < g.height ==> (Covers(rs, px, py) <==> IsDirty(d, g, px, py))
  }

  /** After a delta, a dirty tile is the image's and a clean tile is what it was. */
  lemma DeltaTile(old': Image, image: Image, rs: seq<Rect>, d: seq<bool>, tileSize: nat, i: nat)
    requires ValidImage(old') && ValidImage(image) && old'.width == image.width && old'.height == image.height
    requires 0 < tileSize && DirtyMap(d, GridOf(image, tileSize)) && i < |d| == TileCount(image, tileSize)
    requires CoversDirty(rs, d, GridOf(image, tileSize))
    ensures var new' := Image(image.width, image.height, Painted(old'.pixels, image, rs));
            ValidImage(new') &&
            TileBytes(new', tileSize, i) == if d[i] then TileBytes(image, tileSize, i) else TileBytes(old', tileSize, i)
  {
    hide Crop, IsDirty, TileRect;
    var new' := Image(image.width, image.height, Painted(old'.pixels, image, rs));
    var source := if d[i] then image else old';
    var g := GridOf(image, tileSize);
    var r := TileRect(g, i);
    forall b | 0 <= b < |new'.pixels| && Hits(r, b, image.width)
      ensures new'.pixels[b] == source.pixels[b]
    {
      RowWithinImage(b, image.width, image.height);
      var px, py := Col(b, image.width), Row(b, image.width);
      DirtyPixelOfTile(d, g, i, px, py);
      HitsIsCovers(rs, b, image.width);
      assert Covers(rs, px, py) <==> IsDirty(d, g, px, py);
    }
    EqualCrops(new', source, r);
  }

  /** A client that followed the previous image follows the new one after its delta. */
  lemma DeltaFollows(s: State, m: Memory, image: Image, rs: seq<Rect>, c: Host.Setup)
    requires Tiled(c) && MemoryOk(m, c.damage, c.codecs.hash) && m.previous.pixels != []
    requires ValidImage(image) && SameGeometry(m, image) && Follows(s, m.previous, c)
    requires CoversDirty(rs, Dirty(image, m, c.damage.tileSize, c.codecs.hash), GridOf(image, c.damage.tileSize))
    ensures |s.pixels| == |image.pixels|
    ensures Follows(s.(pixels := Painted(s.pixels, image, rs)), image, c)
    ensures Patchwork(s, s.(pixels := Painted(s.pixels, image, rs)), image, c)
    ensures Untouched(s, s.(pixels := Painted(s.pixels, image, rs)), image, c)
  {
    hide Painted, Crop, Hashes, Dirty, TileBytes, CoversDirty;
    var ts, hash := c.damage.tileSize, c.codecs.hash;
    var d := Dirty(image, m, ts, hash);
    var after := Image(image.width, image.height, Painted(s.pixels, image, rs));
    forall i | 0 <= i < TileCount(image, ts)
      ensures Hashes(after, ts, hash)[i] == Hashes(image, ts, hash)[i]
      ensures TileBytes(after, ts, i) == TileBytes(image, ts, i)
              || TileBytes(after, ts, i) == TileBytes(ClientImage(s), ts, i)
      ensures hash(TileBytes(ClientImage(s), ts, i)) == hash(TileBytes(image, ts, i))
              ==> TileBytes(after, ts, i) == TileBytes(ClientImage(s), ts, i)
    {
      DeltaTile(ClientImage(s), image, rs, d, ts, i);
      CleanTileHash(m, image, c, i);
      FollowerTileHash(s, m, image, c, i);
    }
  }

  /** A tile not sent hashes like the remembered one. */
  lemma CleanTileHash(m: Memory, image: Image, c: Host.Setup, i: nat)
    requires Tiled(c) && MemoryOk(m, c.damage, c.codecs.hash) && m.previous.pixels != []
    requires ValidImage(image) && SameGeometry(m, image) && i < TileCount(image, c.damage.tileSize)
    ensures var ts, hash := c.damage.tileSize, c.codecs.hash;
            && i < |m.hashes|
            && (!Dirty(image, m, ts, hash)[i] ==> hash(TileBytes(image, ts, i)) == m.hashes[i])
  {
    hide Crop;
  }

  /** A follower's tile hashes as remembered. */
  lemma FollowerTileHash(s: State, m: Memory, image: Image, c: Host.Setup, i: nat)
    requires Tiled(c) && MemoryOk(m, c.damage, c.codecs.hash) && m.previous.pixels != []
    requires ValidImage(image) && SameGeometry(m, image) && Follows(s, m.previous, c)
    requires i < TileCount(image, c.damage.tileSize)
    ensures i < |m.hashes| && c.codecs.hash(TileBytes(ClientImage(s), c.damage.tileSize, i)) == m.hashes[i]
  {
    hide TileBytes;
    assert Hashes(ClientImage(s), c.damage.tileSize, c.codecs.hash)[i]
           == Hashes(m.previous, c.damage.tileSize, c.codecs.hash)[i];
  }

  // ----- one capture

  lemma TileHasPixel(g: Grid, i: nat) returns (px: nat, py: nat)
    requires g.Valid() && i < g.Cols() * g.Rows()
    ensures px < g.width && py < g.height && Inside(TileRect(g, i), px, py)
  {
    hide ClippedTile;
    var r := TileRect(g, i);
    px, py := r.x, r.y;
  }

  /** No damage rectangle means every tile still hashes as remembered. */
  lemma NothingDirty(m: Memory, image: Image, c: Host.Setup)
    requires Tiled(c) && MemoryOk(m, c.damage, c.codecs.hash) && m.previous.pixels != []
    requires ValidImage(image) && SameGeometry(m, image)
    requires DamageRects(Dirty(image, m, c.damage.tileSize, c.codecs.hash), GridOf(image, c.damage.tileSize)) == []
    ensures Hashes(image, c.damage.tileSize, c.codecs.hash) == m.hashes
  {
    hide Dirty, DamageRects, TileRect, IsDirty, TileBytes, Hashes;
    var ts := c.damage.tileSize;
    var d, g := Dirty(image, m, ts, c.codecs.hash), GridOf(image, ts);
    DamageRectsExact(d, g);
    forall i | 0 <= i < TileCount(image, ts)
      ensures Hashes(image, ts, c.codecs.hash)[i] == m.hashes[i]
    {
      var px, py := TileHasPixel(g, i);
      DirtyPixelOfTile(d, g, i, px, py);
      assert !Covers([], px, py);
      CleanTileHash(m, image, c, i);
    }
    SameLengthHashes(m, image, c);
  }

  lemma SameLengthHashes(m: Memory, image: Image, c: Host.Setup)
    requires Tiled(c) && MemoryOk(m, c.damage, c.codecs.hash) && m.previous.pixels != []
    requires ValidImage(image) && SameGeometry(m, image)
    ensures |m.hashes| == TileCount(image, c.damage.tileSize)
  {
  }

  /** A capture that sends nothing found the image unchanged, tile by tile. */
  lemma UnsentFollows(m: Memory, image: Image, force: bool, s: State, c: Host.Setup)
    requires Tiled(c) && MemoryOk(m, c.damage, c.codecs.hash)
    requires Compare(m, image, force, c.damage, c.codecs).1 == Ok(None)
    requires m.previous.pixels != [] ==> Follows(s, m.previous, c)
    ensures Compare(m, image, force, c.damage, c.codecs).0 == m
    ensures !force && m.previous.pixels != [] && ValidImage(image) && Follows(s, image, c)
    ensures Patchwork(s, s, image, c) && Untouched(s, s, image, c)
  {
    hide Hashes, Dirty, DamageRects, DirtyTiles, TotalArea, TooDirty, EncodeAll, BandAll, Bands;
    var next := m.(sequence := m.sequence + 1);
    SameDirty(image, m, next, c.damage.tileSize, c.codecs.hash);
    NothingDirty(m, image, c);
  }

  /** Where a frame the host remembered leaves a client that welcomed it. */
  lemma LandedFollows(m: Memory, s: State, f: Frame, image: Image, rs: seq<Rect>, c: Host.Setup, client: Setup)
    requires Matched(c, client) && Sendable(f, image, rs, c) && Welcome(s, f.header, image, client)
    requires MemoryOk(m, c.damage, c.codecs.hash)
    requires f.header.keyframe ==> CoversImage(rs, image)
    requires !f.header.keyframe ==>
               m.previous.pixels != [] && SameGeometry(m, image) && IsDelta(f, m, image, rs, c) && Follows(s, m.previous, c)
    ensures |s.pixels| == |s.scratch| == |image.pixels|
    ensures var s' := Landed(s, f.header, image, rs);
            Follows(s', image, c) && Patchwork(s, s', image, c)
            && (if f.header.keyframe then s'.pixels == image.pixels else Untouched(s, s', image, c))
  {
    hide Painted, Hashes, TileBytes, Dirty, IsDirty, EncodeAll;
    if f.header.keyframe {
      PaintedWhole(s.scratch, image, rs);
    } else {
      assert CoversDirty(rs, Dirty(image, m, c.damage.tileSize, c.codecs.hash), GridOf(image, c.damage.tileSize));
      DeltaFollows(s, m, image, rs, c);
    }
  }

  /** The capture goes out as a keyframe: forced, requested, of a new geometry, or because the
      damage was too large or too scattered. */
  ghost predicate SendsKeyframe(h: Host.State, image: Image, force: bool, c: Host.Setup)
    requires Tiled(c) && MemoryOk(h.memory, c.damage, c.codecs.hash) && Host.Takes(image, c)
  {
    var (_, r) := Compare(h.memory, Host.Prepare(image, c), force || h.keyframeRequested, c.damage, c.codecs);
    r.Ok? && r.value.Some? && r.value.value.header.keyframe
  }

  /** What a capture of the remembered geometry damaged: rectangles over exactly its dirty tiles. */
  ghost function DamageOf(m: Memory, image: Image, c: Host.Setup): seq<Rect>
    requires Tiled(c) && ValidImage(image) && SameGeometry(m, image)
  {
    DamageRects(Dirty(image, m, c.damage.tileSize, c.codecs.hash), GridOf(image, c.damage.tileSize))
  }

  /** Damage in too many rectangles, over more than the set share of the image's pixels, or in
      too many bands. */
  ghost predicate TooScattered(rs: seq<Rect>, image: Image, c: Host.Setup) {
    && rs != []
    && (|rs| > c.damage.maxRectangles
        || TotalArea(rs) as real > c.damage.dirtyRatio * (image.width * image.height) as real
        || |BandAll(rs, c.damage.maxRectangleBytes)| > c.damage.maxRectangles)
  }

  lemma ShareIsQuotient(pixels: nat, image: Image, ratio: real)
    requires ValidImage(image)
    ensures TooDirty(pixels, image, ratio) <==> pixels as real > ratio * (image.width * image.height) as real
  {
    var all := (image.width * image.height) as real;
    assert all > 0.0;
    assert pixels as real == pixels as real / all * all;
    if pixels as real / all > ratio {
      assert pixels as real / all * all > ratio * all;
    } else {
      assert pixels as real / all * all <= ratio * all;
    }
  }

  /** A capture is due as a keyframe. */
  ghost predicate KeyframeDue(m: Memory, image: Image, force: bool, c: Host.Setup)
    requires Tiled(c) && MemoryOk(m, c.damage, c.codecs.hash) && ValidImage(image)
  {
    || force || m.previous.pixels == []
    || image.width != m.previous.width || image.height != m.previous.height
    || TooScattered(DamageOf(m, image, c), image, c)
  }

  /** A comparison fails exactly when a keyframe is due that takes more bands than the rectangle
      limit, yields a keyframe exactly when one is due that does not, and otherwise a delta
      exactly when something is damaged. */
  lemma ComparisonExactly(m: Memory, image: Image, force: bool, c: Host.Setup)
    requires Tiled(c) && MemoryOk(m, c.damage, c.codecs.hash) && ValidImage(image)
    ensures var (_, r) := Compare(m, image, force, c.damage, c.codecs);
            var due := KeyframeDue(m, image, force, c);
            var fits := |Bands(WholeImage(image), c.damage.maxRectangleBytes)| <= c.damage.maxRectangles;
            && (r == Err(RectLimit) <==> due && !fits)
            && (r.Ok? && r.value.Some? && r.value.value.header.keyframe <==> due && fits)
            && (r.Ok? && r.value.Some? && !r.value.value.header.keyframe <==> !due && DamageOf(m, image, c) != [])
            && (r == Ok(None) <==> !due && DamageOf(m, image, c) == [])
  {
    hide Hashes, Dirty, DamageRects, DirtyTiles, TotalArea, TooDirty, EncodeAll, BandAll, Bands;
    if m.previous.pixels != [] && !GeometryChanged(m, image) {
      var next := m.(sequence := m.sequence + 1);
      SameDirty(image, m, next, c.damage.tileSize, c.codecs.hash);
      DamageAreaIsDirtyPixels(Dirty(image, m, c.damage.tileSize, c.codecs.hash), GridOf(image, c.damage.tileSize));
      ShareIsQuotient(TotalArea(DamageOf(m, image, c)), image, c.damage.dirtyRatio);
    }
  }

  /** When a capture goes out as a keyframe, in terms a caller can check before it. */
  lemma KeyframeExactly(h: Host.State, image: Image, force: bool, c: Host.Setup)
    requires Tiled(c) && MemoryOk(h.memory, c.damage, c.codecs.hash) && Host.Takes(image, c)
    requires Host.SendCapture(h, image, force, c).2 == None
    ensures ValidImage(Host.Prepare(image, c))
    ensures SendsKeyframe(h, image, force, c)
            <==> KeyframeDue(h.memory, Host.Prepare(image, c), force || h.keyframeRequested, c)
  {
    hide Compare, KeyframeDue, Host.PlanFrame, Host.SendAll, Bands, Host.Prepare;
    ErrorFreeIsValid(h, image, force, c);
    ComparisonExactly(h.memory, Host.Prepare(image, c), force || h.keyframeRequested, c);
  }

  lemma ErrorFreeIsValid(h: Host.State, image: Image, force: bool, c: Host.Setup)
    requires Tiled(c) && MemoryOk(h.memory, c.damage, c.codecs.hash) && Host.Takes(image, c)
    requires Host.SendCapture(h, image, force, c).2 == None
    ensures ValidImage(Host.Prepare(image, c))
    ensures Compare(h.memory, Host.Prepare(image, c), force || h.keyframeRequested, c.damage, c.codecs).1.Ok?
  {
    hide FullFrame, CompareTiles, Host.PlanFrame, Host.SendAll, Host.Prepare;
  }

  /** After the capture is delivered: nothing was rejected, host and client are in sync,
      the client follows the captured image, any keyframe left it byte-equal, and anything
      else left alone every tile whose hash it already had. */
  ghost predicate SyncedAfter(h: Host.State, s: State, image: Image, force: bool, c: Host.Setup, client: Setup)
    requires Tiled(c) && InSync(h, s, c, client)
    requires Host.Takes(image, c)
  {
    var (h', sent, _) := Host.SendCapture(h, image, force, c);
    var (s', outs) := Run(s, EventsOf(sent), client);
    && NoneRejected(outs)
    && InSync(h', s', c, client)
    && Follows(s', Host.Prepare(image, c), c)
    && Patchwork(s, s', Host.Prepare(image, c), c)
    && (if SendsKeyframe(h, image, force, c) then s'.pixels == Host.Prepare(image, c).pixels
        else Untouched(s, s', Host.Prepare(image, c), c))
  }

  /** Host/client compatibility and the replica step: while host and client are in sync,
      an error-free capture makes the client reject nothing, leaves the two in sync, and
      leaves every client tile hashing like the captured image's; any keyframe leaves the
      client byte-equal to it. */
  lemma CaptureKeepsSync(h: Host.State, s: State, image: Image, force: bool, c: Host.Setup, client: Setup)
    requires Matched(c, client) && InSync(h, s, c, client)
    requires Host.Takes(image, c)
    requires Host.SendCapture(h, image, force, c).2 == None
    ensures SyncedAfter(h, s, image, force, c, client)
  {
    hide Compare, Follows, Inv, Run, Host.SendAll, Host.PlanFrame, MemoryOk, Landed, Sendable;
    var prepared := Host.Prepare(image, c);
    var forced := force || h.keyframeRequested;
    var (memory, r) := Compare(h.memory, prepared, forced, c.damage, c.codecs);
    CompareKeepsMemory(h.memory, prepared, forced, c.damage, c.codecs);
    match r
    case Ok(None) =>
      UnsentFollows(h.memory, prepared, forced, s, c);
      RunNothing(s, client);
    case Ok(Some(f)) =>
      FrameKeepsSync(h, s, image, force, c, client);
  }

  lemma RunNothing(s: State, client: Setup)
    requires Inv(s, client)
    ensures Run(s, [], client) == (s, [])
  {
  }

  /** The client after a captured frame: idle, at the frame's position, following its image. */
  ghost predicate Caught(s: State, f: Frame, m: Memory, image: Image, c: Host.Setup, client: Setup)
    requires Tiled(c)
  {
    && Inv(s, client) && s.mode.Idle?
    && s.generation == m.generation && s.frameSequence == m.sequence && !s.keyframeRequired
    && Follows(s, image, c)
    && (f.header.keyframe ==> s.pixels == image.pixels)
  }

  lemma WelcomeLands(m: Memory, m': Memory, s: State, f: Frame, image: Image, rs: seq<Rect>, plan: Host.Plan,
                     c: Host.Setup, client: Setup)
    requires Matched(c, client) && MemoryOk(m, c.damage, c.codecs.hash) && Captured(m, m', f, image, rs, c)
    requires Welcome(s, f.header, image, client)
    requires !f.header.keyframe ==> Follows(s, m.previous, c)
    requires Host.PlanFrame(f, c) == Ok(plan) && Host.SendAll(Host.PlanMessages(plan), c).1 == None
    ensures var (s', outs) := Run(s, EventsOf(Host.SendAll(Host.PlanMessages(plan), c).0), client);
            NoneRejected(outs) && Caught(s', f, m', image, c, client) && Patchwork(s, s', image, c)
            && (!f.header.keyframe ==> Untouched(s, s', image, c))
  {
    hide Run, Host.SendAll, Host.PlanFrame, Hashes, Painted, Sendable, IsDelta, CoversImage, Inv;
    PlanLands(s, f, image, rs, plan, c, client);
    LandedFollows(m, s, f, image, rs, c, client);
  }

  /** A frame of the current geometry finds the client in sync and ready for it. */
  lemma InSyncWelcomes(h: Host.State, s: State, m': Memory, f: Frame, image: Image, rs: seq<Rect>,
                       c: Host.Setup, client: Setup)
    requires Tiled(c) && InSync(h, s, c, client) && Captured(h.memory, m', f, image, rs, c)
    requires f.header.generation == h.generation
    ensures Welcome(s, f.header, image, client) && h.memory.previous.pixels != [] && Follows(s, h.memory.previous, c)
    ensures h.width == image.width && h.height == image.height
  {
    hide Hashes, EncodeAll, IsDirty, CoversImage, Inv;
  }

  /** The announcement a new geometry is preceded by. */
  function Announcement(f: Frame, image: Image): DisplayConfig {
    DisplayConfig(f.header.generation, image.width, image.height, 0, 0, PIXEL_BGRA8888)
  }

  /** The client is idle and in the host's generation, whatever it shows. */
  ghost predicate Attached(h: Host.State, s: State, c: Host.Setup, client: Setup)
    requires Tiled(c)
  {
    && Inv(s, client) && s.mode.Idle? && MemoryOk(h.memory, c.damage, c.codecs.hash)
    && s.generation == h.generation == h.memory.generation
    && (h.memory.previous.pixels == [] ==> h.memory == NO_MEMORY)
  }

  /** A new geometry: the client blanks both buffers and then waits for the keyframe
      that follows. */
  lemma AnnouncementWelcomes(h: Host.State, s: State, m': Memory, f: Frame, image: Image, rs: seq<Rect>,
                             c: Host.Setup, client: Setup)
    requires Matched(c, client) && Attached(h, s, c, client) && Captured(h.memory, m', f, image, rs, c)
    requires f.header.generation != h.generation
    requires Host.SendError(Display(Announcement(f, image)), c) == None
    ensures Sized(s) && f.header.keyframe
    ensures var (s1, out) := Step(s, Configure(Announcement(f, image)), client);
            out == Consumed && Welcome(s1, f.header, image, client)
  {
    hide Hashes, EncodeAll, IsDirty, CoversImage, DisplayError, Follows;
    StepKeepsInvariant(s, Configure(Announcement(f, image)), client);
    AnnouncementAccepted(Announcement(f, image), c, client.limits);
    AreaFits(image);
  }

  lemma AreaFits(image: Image)
    requires ValidImage(image)
    ensures image.width * image.height * 4 <= MAX_PIXEL_PAYLOAD_HARD * 16
  {
    MulMonotone(image.width, MAX_DIMENSION_HARD, image.height);
    MulMonotone(image.height, MAX_DIMENSION_HARD, MAX_DIMENSION_HARD);
  }

  lemma AnnouncementAccepted(config: DisplayConfig, c: Host.Setup, l: Limits)
    requires Host.SendError(Display(config), c) == None && Bounded(l) == Bounded(c.limits)
    ensures DisplayError(config, l) == None
  {
    DisplayErrorIsMessageError(config, c.limits);
  }

  lemma EventsOfAnnounced(config: DisplayConfig, ms: seq<Message>)
    ensures EventsOf([Display(config)] + ms) == [Configure(config)] + EventsOf(ms)
  {
    assert ([Display(config)] + ms)[1..] == ms;
  }

  lemma FrameKeepsSync(h: Host.State, s: State, image: Image, force: bool, c: Host.Setup, client: Setup)
    requires Matched(c, client) && InSync(h, s, c, client)
    requires Host.Takes(image, c)
    requires Host.SendCapture(h, image, force, c).2 == None
    requires var (_, r) := Compare(h.memory, Host.Prepare(image, c), force || h.keyframeRequested, c.damage, c.codecs);
             r.Ok? && r.value.Some?
    ensures SyncedAfter(h, s, image, force, c, client)
  {
    hide Compare, Run, Host.SendAll, Host.PlanFrame, Hashes, Sendable, Step, Welcome, Host.SendError, Inv;
    hide IsDelta, CoversImage;
    var prepared := Host.Prepare(image, c);
    var forced := force || h.keyframeRequested;
    var (memory, r) := Compare(h.memory, prepared, forced, c.damage, c.codecs);
    var f := r.value.value;
    var rs := CaptureSends(h.memory, prepared, forced, c);
    CompareKeepsMemory(h.memory, prepared, forced, c.damage, c.codecs);
    ImageNotEmpty(prepared);
    var plan := Host.PlanFrame(f, c).value;
    if f.header.generation == h.generation {
      InSyncWelcomes(h, s, memory, f, prepared, rs, c, client);
      WelcomeLands(h.memory, memory, s, f, prepared, rs, plan, c, client);
    } else {
      AnnouncementWelcomes(h, s, memory, f, prepared, rs, c, client);
      var config := Configure(Announcement(f, prepared));
      StepKeepsInvariant(s, config, client);
      WelcomeLands(h.memory, memory, Step(s, config, client).0, f, prepared, rs, plan, c, client);
      var sent := Host.SendAll(Host.PlanMessages(plan), c).0;
      EventsOfAnnounced(Announcement(f, prepared), sent);
      var events := EventsOf(sent);
      assert ([config] + events)[1..] == events;
      RunFirst(s, [config] + events, client);
    }
  }

  // ----- byte equality

  /** No tile changed without its hash changing. */
  ghost predicate NoCollision(before: Image, after: Image, c: Host.Setup)
    requires Tiled(c)
  {
    ValidImage(before) && ValidImage(after) && before.width == after.width && before.height == after.height ==>
      forall i :: 0 <= i < TileCount(after, c.damage.tileSize) ==>
        c.codecs.hash(TileBytes(before, c.damage.tileSize, i)) == c.codecs.hash(TileBytes(after, c.damage.tileSize, i))
        ==> TileBytes(before, c.damage.tileSize, i) == TileBytes(after, c.damage.tileSize, i)
  }

  lemma EqualTilesEqualImages(a: Image, b: Image, ts: nat)
    requires ValidImage(a) && ValidImage(b) && a.width == b.width && a.height == b.height && 0 < ts
    requires forall i :: 0 <= i < TileCount(a, ts) ==> TileBytes(a, ts, i) == TileBytes(b, ts, i)
    ensures a.pixels == b.pixels
  {
    var g := GridOf(a, ts);
    forall k | 0 <= k < |a.pixels|
      ensures a.pixels[k] == b.pixels[k]
    {
      RowWithinImage(k, a.width, a.height);
      PixelIsInItsTile(a, b, ts, k);
    }
  }

  lemma PixelIsInItsTile(a: Image, b: Image, ts: nat, k: nat)
    requires ValidImage(a) && ValidImage(b) && a.width == b.width && a.height == b.height && 0 < ts
    requires k < |a.pixels|
    requires forall i :: 0 <= i < TileCount(a, ts) ==> TileBytes(a, ts, i) == TileBytes(b, ts, i)
    ensures a.pixels[k] == b.pixels[k]
  {
    hide Crop, TileRect, TileAt;
    RowWithinImage(k, a.width, a.height);
    var g, px, py := GridOf(a, ts), Col(k, a.width), Row(k, a.width);
    var i := TileAt(g, px, py);
    TileAtExists(g, px, py);
    TileHolds(g, i, px, py);
    assert TileBytes(a, ts, i) == TileBytes(b, ts, i);
    EqualCrops(a, b, TileRect(g, i));
  }

  /** Byte for byte: after an error-free capture, a client that showed the remembered image
      exactly shows the captured one exactly if and only if the capture went out as a keyframe
      or no tile changed without its hash changing. */
  lemma CaptureExactness(h: Host.State, s: State, image: Image, force: bool, c: Host.Setup, client: Setup)
    requires Matched(c, client) && InSync(h, s, c, client)
    requires Host.Takes(image, c) && Host.SendCapture(h, image, force, c).2 == None
    requires s.pixels == h.memory.previous.pixels
    ensures var (_, sent, _) := Host.SendCapture(h, image, force, c);
            var (s', _) := Run(s, EventsOf(sent), client);
            s'.pixels == Host.Prepare(image, c).pixels
            <==> SendsKeyframe(h, image, force, c) || NoCollision(h.memory.previous, Host.Prepare(image, c), c)
  {
    hide Compare, Run, Host.PlanFrame, Hashes, TileBytes, Inv, EventsOf, Host.Announce, Patchwork, NoCollision, Follows;
    hide SendsKeyframe, Untouched;
    CaptureKeepsSync(h, s, image, force, c, client);
    var prepared := Host.Prepare(image, c);
    var (h', sent, _) := Host.SendCapture(h, image, force, c);
    var (s', _) := Run(s, EventsOf(sent), client);
    if NoCollision(h.memory.previous, prepared, c) {
      PatchworkIsExact(h, s, s', prepared, c, client);
    } else if !SendsKeyframe(h, image, force, c) && s'.pixels == prepared.pixels {
      CollidingTileStays(h, s, s', prepared, c, client);
    }
  }

  lemma CollidingTileStays(h: Host.State, s: State, s': State, image: Image, c: Host.Setup, client: Setup)
    requires Tiled(c) && InSync(h, s, c, client) && Follows(s', image, c) && Untouched(s, s', image, c)
    requires s.pixels == h.memory.previous.pixels && s'.pixels == image.pixels
    ensures NoCollision(h.memory.previous, image, c)
  {
    hide Hashes, TileBytes, Inv;
    assert ClientImage(s') == image;
    if ValidImage(h.memory.previous) {
      ImageNotEmpty(h.memory.previous);
      assert ClientImage(s) == h.memory.previous;
    }
  }

  /** Whatever came before, a client that follows an image shows it exactly if and only if
      none of its tiles merely hashes like the image's. */
  lemma FollowerExactness(s: State, image: Image, c: Host.Setup)
    requires Tiled(c) && Follows(s, image, c)
    ensures s.pixels == image.pixels <==> NoCollision(ClientImage(s), image, c)
  {
    hide TileBytes, WellSized;
    var ts := c.damage.tileSize;
    if s.pixels == image.pixels {
      assert ClientImage(s) == image;
    }
    if NoCollision(ClientImage(s), image, c) {
      forall i | 0 <= i < TileCount(image, ts)
        ensures TileBytes(ClientImage(s), ts, i) == TileBytes(image, ts, i)
      {
        assert Hashes(ClientImage(s), ts, c.codecs.hash)[i] == Hashes(image, ts, c.codecs.hash)[i];
      }
      EqualTilesEqualImages(ClientImage(s), image, ts);
    }
  }

  lemma NothingSentNothingShown(s: State, client: Setup)
    requires Inv(s, client)
    ensures Run(s, EventsOf([]), client).0 == s
  {
  }

  lemma PatchworkIsExact(h: Host.State, s: State, s': State, image: Image, c: Host.Setup, client: Setup)
    requires Tiled(c) && InSync(h, s, c, client) && Follows(s', image, c) && Patchwork(s, s', image, c)
    requires s.pixels == h.memory.previous.pixels && NoCollision(h.memory.previous, image, c)
    ensures s'.pixels == image.pixels
  {
    hide Hashes, TileBytes, Inv;
    if s'.pixels != image.pixels {
      ImageNotEmpty(ClientImage(s));
      var before := h.memory.previous;
      assert ClientImage(s) == before;
      forall i | 0 <= i < TileCount(image, c.damage.tileSize)
        ensures TileBytes(ClientImage(s'), c.damage.tileSize, i) == TileBytes(image, c.damage.tileSize, i)
      {
        assert Hashes(ClientImage(s'), c.damage.tileSize, c.codecs.hash)[i]
               == Hashes(image, c.damage.tileSize, c.codecs.hash)[i];
      }
      EqualTilesEqualImages(ClientImage(s'), image, c.damage.tileSize);
    }
  }

  lemma MemoryIsPreviousOrCapture(m: Memory, image: Image, force: bool, c: Host.Setup)
    requires Tiled(c) && MemoryOk(m, c.damage, c.codecs.hash)
    requires Compare(m, image, force, c.damage, c.codecs).1.Ok?
    ensures var (m', r) := Compare(m, image, force, c.damage, c.codecs);
            m'.previous == if r.value == None then m.previous else image
  {
  }
}
