/** Under the default limits the host never has to refuse a legal capture. */
module WireBounds {
  import opened Types
  import opened Geometry
  import opened Raster
  import opened Messages
  import opened Validation
  import opened Packer
  import opened Tiling
  import opened Damage
  import opened Downscale
  import Host
  import CS = ClientState
  import ClientRuns
  import Reassembly
  import Replica
  import System

  ghost predicate NeverEmpty(codecs: Codecs) {
    forall x: seq<byte> :: codecs.deflate(x) != []
  }

  /** The shipped limits and detector defaults, with any tile size that
      never wraps. */
  predicate Default(c: Host.Setup) {
    && Replica.Tiled(c) && c.limits == DEFAULT_LIMITS
    && c.damage.maxRectangles == MAX_RECTANGLES_HARD
    && c.damage.maxRectangleBytes == MAX_RECTANGLE_BYTES
    && c.damage.dirtyRatio <= 0.60
  }

  lemma ShippedIsDefault(version: nat, tileSize: nat, codecs: Codecs, enableInput: bool, maxInputPerSecond: nat)
    requires ExactTiles(tileSize)
    ensures Default(Host.Configured(version, DEFAULT_LIMITS, Config(tileSize, 0.0, 0, 0), codecs,
                                    enableInput, maxInputPerSecond))
  {
  }

  // ----- bands

  lemma BandRowsFit(width: nat, budget: nat)
    requires 0 < width && width * 4 <= budget
    ensures BandRows(width, budget) * (width * 4) <= budget
  {
    var n := width * 4;
    var q := budget / n;
    assert budget == q * n + budget % n;
    MulMonotone(BandRows(width, budget), q, n);
  }

  lemma BandRowsAtLeast(width: nat)
    requires 0 < width <= MAX_DIMENSION_HARD
    ensures 511 <= BandRows(width, MAX_RECTANGLE_BYTES)
  {
    QuotientAtLeast(MAX_RECTANGLE_BYTES, width * 4, 511);
  }

  lemma {:induction false} BandsFromCount(r: Rect, y: nat, rows: nat)
    requires rows > 0 && y <= r.h
    ensures |BandsFrom(r, y, rows)| * rows < r.h - y + rows
    decreases r.h - y
  {
    if y < r.h {
      var h := Min(rows, r.h - y);
      var n := |BandsFrom(r, y + h, rows)|;
      BandsFromCount(r, y + h, rows);
      Distribute(n, 1, rows);
      assert h < rows ==> BandsFrom(r, y + h, rows) == [];
    }
  }

  /** A keyframe of any legal image needs at most 17 bands. */
  lemma KeyframeBands(image: Image)
    requires ValidImage(image)
    ensures |Bands(WholeImage(image), MAX_RECTANGLE_BYTES)| <= 17
  {
    var r := WholeImage(image);
    var rows := BandRows(r.w, MAX_RECTANGLE_BYTES);
    BandRowsAtLeast(r.w);
    BandsFromCount(r, 0, rows);
    if |BandsFrom(r, 0, rows)| > 17 {
      MulMonotone(18, |BandsFrom(r, 0, rows)|, rows);
    }
  }

  ghost predicate WithinBudget(rs: seq<Rect>, budget: nat) {
    forall k :: 0 <= k < |rs| ==> Area(rs[k]) * 4 <= budget
  }

  lemma BandArea(w: nat, h: nat, rows: nat, budget: nat)
    requires h <= rows && rows * (w * 4) <= budget
    ensures w * h * 4 <= budget
  {
    MulMonotone(h, rows, w * 4);
    assert w * h * 4 == h * (w * 4);
  }

  lemma {:induction false} BandsFromFit(r: Rect, y: nat, rows: nat, budget: nat)
    requires rows > 0 && y <= r.h && rows * (r.w * 4) <= budget
    ensures WithinBudget(BandsFrom(r, y, rows), budget)
    decreases r.h - y
  {
    if y < r.h {
      var h := Min(rows, r.h - y);
      BandArea(r.w, h, rows, budget);
      BandsFromFit(r, y + h, rows, budget);
    }
  }

  lemma BandsFit(r: Rect, budget: nat)
    requires 0 < r.w && r.w * 4 <= budget
    ensures WithinBudget(Bands(r, budget), budget)
  {
    var rows := BandRows(r.w, budget);
    BandRowsFit(r.w, budget);
    if rows >= r.h {
      BandArea(r.w, r.h, rows, budget);
    } else {
      BandsFromFit(r, 0, rows, budget);
    }
  }

  lemma {:induction false} BandAllFit(rs: seq<Rect>, budget: nat, width: nat, height: nat)
    requires AllInBounds(rs, width, height) && width * 4 <= budget
    ensures WithinBudget(BandAll(rs, budget), budget)
  {
    if rs != [] {
      assert InBounds(rs[|rs| - 1], width, height);
      BandAllFit(rs[..|rs| - 1], budget, width, height);
      BandsFit(rs[|rs| - 1], budget);
    }
  }

  // ----- encoded sizes

  lemma {:induction false} EncodedSize(image: Image, rs: seq<Rect>, deflate: seq<byte> -> seq<byte>)
    requires WellSized(image) && AllInBounds(rs, image.width, image.height)
    ensures ListSize(EncodeAll(image, rs, deflate)) <= RECT_METADATA_SIZE * |rs| + TotalArea(rs) * 4
  {
    if rs != [] {
      var front := rs[..|rs| - 1];
      EncodedSize(image, front, deflate);
      assert EncodeAll(image, rs, deflate)[..|rs| - 1] == EncodeAll(image, front, deflate);
    }
  }

  lemma EncodedIsValid(image: Image, rs: seq<Rect>, c: Host.Setup)
    requires Default(c) && NeverEmpty(c.codecs) && ValidImage(image)
    requires AllInBounds(rs, image.width, image.height) && Disjoint(rs) && WithinBudget(rs, MAX_RECTANGLE_BYTES)
    ensures ValidList(EncodeAll(image, rs, c.codecs.deflate), c.limits)
    ensures forall k :: 0 <= k < |rs| ==>
              RectSize(EncodeAll(image, rs, c.codecs.deflate)[k]) <= RECT_METADATA_SIZE + MAX_RECTANGLE_BYTES
  {
    hide Crop;
    var encoded := EncodeAll(image, rs, c.codecs.deflate);
    forall k | 0 <= k < |rs|
      ensures ValidRectangle(encoded[k], c.limits) && RectSize(encoded[k]) <= RECT_METADATA_SIZE + MAX_RECTANGLE_BYTES
    {
      assert InBounds(rs[k], image.width, image.height);
      assert encoded[k] == Encode(image, rs[k], c.codecs.deflate);
    }
  }

  // ----- packing

  function Singles(rs: seq<Rectangle>): (gs: seq<Group>)
    ensures |gs| == |rs|
  {
    seq(|rs|, k requires 0 <= k < |rs| => [rs[k]])
  }

  lemma {:induction false} SinglesPack(rs: seq<Rectangle>, budget: nat)
    requires forall k :: 0 <= k < |rs| ==> FRAME_PART_HEADER_SIZE + RectSize(rs[k]) <= budget
    ensures Packs(Singles(rs), rs, budget)
  {
    if rs != [] {
      SinglesPack(rs[1..], budget);
      assert Singles(rs)[1..] == Singles(rs[1..]);
      assert rs == [rs[0]] + rs[1..];
      forall k | 0 <= k < |rs|
        ensures FitsPart(Singles(rs)[k], budget)
      {
        ListSizeSnoc([], rs[k]);
      }
    }
  }

  /** Rectangles that each fit a part always pack, into no more parts than rectangles. */
  lemma AlwaysPacks(rs: seq<Rectangle>, budget: nat)
    requires forall k :: 0 <= k < |rs| ==> FRAME_PART_HEADER_SIZE + RectSize(rs[k]) <= budget
    ensures Packable(rs, budget) && |Greedy(rs, budget)| <= |rs|
  {
    SinglesPack(rs, budget);
    GreedyIsOptimal(rs, budget);
  }

  lemma RatioBound(dirty: nat, area: nat, ratio: real)
    requires 0 < area && dirty as real / area as real <= ratio <= 0.60
    ensures dirty * 10 <= area * 6
  {
    var q := dirty as real / area as real;
    assert q * area as real == dirty as real;
    assert q * area as real <= 0.60 * area as real;
  }

  // ----- what a capture yields under the default limits

  /** The frame of a capture: banded, and small when it is a delta. */
  ghost predicate Modest(f: Frame, image: Image, c: Host.Setup) {
    && ValidImage(image)
    && var rs := Rects(f.rectangles);
       && WithinBudget(rs, MAX_RECTANGLE_BYTES)
       && (if f.header.keyframe then rs == Bands(WholeImage(image), MAX_RECTANGLE_BYTES)
           else TotalArea(rs) * 10 <= image.width * image.height * 6)
  }

  lemma FullFrameModest(m: Memory, image: Image, c: Host.Setup)
    requires Default(c) && ValidImage(image)
    ensures var (_, r) := FullFrame(m, image, c.damage, c.codecs);
            r.Ok? && r.value.Some? && Modest(r.value.value, image, c)
  {
    hide Hashes, Bands, Encode;
    KeyframeBands(image);
    WholeImageBands(image, MAX_RECTANGLE_BYTES);
    BandsFit(WholeImage(image), MAX_RECTANGLE_BYTES);
  }

  lemma TilesModest(m: Memory, image: Image, c: Host.Setup)
    requires Default(c) && ValidImage(image) && ValidImage(m.previous) && 0 < m.sequence
    requires image.width == m.previous.width && image.height == m.previous.height
    ensures var (_, r) := CompareTiles(m, image, c.damage, c.codecs);
            r.Ok? && (r.value.Some? ==> Modest(r.value.value, image, c))
  {
    hide Hashes, Dirty, DamageRects, DirtyTiles, Encode, BandAll, Bands, FullFrame, TotalArea;
    FullFrameModest(m, image, c);
    var g := GridOf(image, c.damage.tileSize);
    var d := Dirty(image, m, c.damage.tileSize, c.codecs.hash);
    var rects := DamageRects(d, g);
    var pixels := TotalArea(DirtyTiles(d, g, |d|));
    ImageNotEmpty(image);
    if !TooDirty(pixels, image, c.damage.dirtyRatio) {
      RatioBound(pixels, image.width * image.height, c.damage.dirtyRatio);
      DamageRectsExact(d, g);
      DamageAreaIsDirtyPixels(d, g);
      BandAllExact(rects, MAX_RECTANGLE_BYTES, g.width, g.height);
      SamePixelsSameArea(BandAll(rects, MAX_RECTANGLE_BYTES), rects);
      BandAllFit(rects, MAX_RECTANGLE_BYTES, g.width, g.height);
    }
  }

  /** Under the default limits a legal capture is always turned into a modest frame. */
  lemma CompareModest(m: Memory, image: Image, force: bool, c: Host.Setup)
    requires Default(c) && ValidImage(image) && MemoryOk(m, c.damage, c.codecs.hash)
    ensures var (_, r) := Compare(m, image, force, c.damage, c.codecs);
            r.Ok? && (r.value.Some? ==> Modest(r.value.value, image, c))
  {
    hide FullFrame, CompareTiles, Modest, Hashes;
    var changed := m.previous.width != image.width || m.previous.height != image.height;
    var generation := if m.generation == 0 || changed then m.generation + 1 else m.generation;
    var next := m.(generation := generation, sequence := m.sequence + 1);
    FullFrameModest(next, image, c);
    if m.previous.pixels != [] && !changed {
      TilesModest(next, image, c);
    }
  }

  // ----- every such frame is accepted by the encoder

  lemma {:induction false} AllAccepted(ms: seq<Message>, c: Host.Setup)
    requires forall k :: 0 <= k < |ms| ==> Host.SendError(ms[k], c) == None
    ensures Host.SendAll(ms, c) == (ms, None)
  {
    hide Host.SendError;
    if ms != [] {
      AllAccepted(ms[1..], c);
      assert ms == [ms[0]] + ms[1..];
    }
  }

  lemma ModestSizes(f: Frame, image: Image, rs: seq<Rect>, c: Host.Setup)
    requires Default(c) && NeverEmpty(c.codecs) && Replica.Sendable(f, image, rs, c) && Modest(f, image, c)
    ensures ValidList(f.rectangles, c.limits)
    ensures forall k :: 0 <= k < |f.rectangles| ==>
              FRAME_PART_HEADER_SIZE + RectSize(f.rectangles[k]) <= c.limits.maxPixelPayload
    ensures ListSize(f.rectangles) <= RECT_METADATA_SIZE * |rs| + TotalArea(rs) * 4
  {
    hide EncodeAll, Bands, Disjoint, ListSize, TotalArea, ValidList;
    EncodedRects(f, image, rs, c);
    EncodedIsValid(image, rs, c);
    EncodedSize(image, rs, c.codecs.deflate);
  }

  lemma EncodedRects(f: Frame, image: Image, rs: seq<Rect>, c: Host.Setup)
    requires Replica.Sendable(f, image, rs, c)
    ensures Rects(f.rectangles) == rs && |f.rectangles| == |rs|
  {
  }

  lemma DisplayArea(image: Image)
    requires ValidImage(image)
    ensures image.width * image.height <= 67108864
  {
    MulMonotone(image.width, MAX_DIMENSION_HARD, image.height);
    MulMonotone(image.height, MAX_DIMENSION_HARD, MAX_DIMENSION_HARD);
  }

  /** Wire bounds: a keyframe of a legal image travels in at most 17 parts, a delta in at
      most 19; both are within the 32-part cap, so the packer never refuses. */
  lemma PartCount(f: Frame, image: Image, rs: seq<Rect>, c: Host.Setup)
    requires Default(c) && NeverEmpty(c.codecs) && Replica.Sendable(f, image, rs, c) && Modest(f, image, c)
    ensures var r := Split(f, c.limits);
            && (r.Ok? || r == Err(FrameFits))
            && (r.Ok? ==> |r.value| <= if f.header.keyframe then 17 else 19)
  {
    hide EncodeAll, Bands, Greedy, Packable, Disjoint, ListSize, TotalArea, Concat, ValidList;
    var budget := c.limits.maxPixelPayload;
    var gs := Greedy(f.rectangles, budget);
    EncodedRects(f, image, rs, c);
    ModestSizes(f, image, rs, c);
    AlwaysPacks(f.rectangles, budget);
    if f.header.keyframe {
      KeyframeBands(image);
    } else if gs != [] {
      NextFitBound(f.rectangles, budget);
      DisplayArea(image);
      if |gs| >= 20 {
        MulMonotone(10, |gs| / 2, budget - FRAME_PART_HEADER_SIZE);
      }
    }
  }

  lemma WholeAccepted(f: Frame, image: Image, rs: seq<Rect>, c: Host.Setup)
    requires Default(c) && NeverEmpty(c.codecs) && Replica.Sendable(f, image, rs, c) && Modest(f, image, c)
    requires FRAME_HEADER_SIZE + ListSize(f.rectangles) <= c.limits.maxPixelPayload
    ensures FrameError(f, c.limits) == None
  {
    hide EncodeAll, Bands, ListSize, TotalArea, ValidList, ListError;
    EncodedRects(f, image, rs, c);
    ModestSizes(f, image, rs, c);
    FrameAccepted(f, c.limits);
  }

  lemma PartsAccepted(f: Frame, image: Image, rs: seq<Rect>, c: Host.Setup)
    requires Default(c) && NeverEmpty(c.codecs) && Replica.Sendable(f, image, rs, c) && Modest(f, image, c)
    requires Split(f, c.limits).Ok?
    ensures forall k :: 0 <= k < |Split(f, c.limits).value| ==>
              PartError(Split(f, c.limits).value[k], c.limits) == None
  {
    hide EncodeAll, Bands, ListSize, TotalArea, ValidList, ListError, Greedy, Packable, Packs, PartError, Disjoint;
    var gs := Greedy(f.rectangles, c.limits.maxPixelPayload);
    EncodedRects(f, image, rs, c);
    ModestSizes(f, image, rs, c);
    SplitIsMinimalPacking(f, c.limits);
    forall k | 0 <= k < |gs|
      ensures PartError(FramePart(f.header, k, |gs|, gs[k]), c.limits) == None
    {
      Reassembly.PartOfSplitAccepted(f.header, f.rectangles, gs, k, c.limits);
    }
  }

  /** A v1 display that was prepared fits one FRAME, raw, keyframe or delta. */
  lemma V1Fits(f: Frame, image: Image, rs: seq<Rect>, c: Host.Setup)
    requires Default(c) && NeverEmpty(c.codecs) && Replica.Sendable(f, image, rs, c) && Modest(f, image, c)
    requires image.width * image.height * 4 <= MAX_RECTANGLE_BYTES
    ensures FRAME_HEADER_SIZE + ListSize(f.rectangles) <= c.limits.maxPixelPayload
  {
    hide EncodeAll, ListSize, TotalArea, ValidList, Bands, Disjoint, WellSized;
    EncodedRects(f, image, rs, c);
    ModestSizes(f, image, rs, c);
    if f.header.keyframe {
      OneBand(image);
      OneRectangleFits(image.width * image.height, |rs|, TotalArea(rs));
    } else {
      DeltaFits(image.width * image.height, |rs|, TotalArea(rs));
    }
  }

  lemma OneRectangleFits(area: nat, count: nat, covered: nat)
    requires area * 4 <= MAX_RECTANGLE_BYTES && count == 1 && covered == area
    ensures FRAME_HEADER_SIZE + RECT_METADATA_SIZE * count + covered * 4 <= MAX_PIXEL_PAYLOAD_HARD
  {
  }

  lemma DeltaFits(area: nat, count: nat, covered: nat)
    requires area * 4 <= MAX_RECTANGLE_BYTES && count <= MAX_RECTANGLES_HARD && covered * 10 <= area * 6
    ensures FRAME_HEADER_SIZE + RECT_METADATA_SIZE * count + covered * 4 <= MAX_PIXEL_PAYLOAD_HARD
  {
  }

  lemma BytesOfRows(width: nat, height: nat)
    ensures height * (width * 4) == width * height * 4
  {
  }

  lemma OneBand(image: Image)
    requires ValidImage(image) && image.width * image.height * 4 <= MAX_RECTANGLE_BYTES
    ensures |Bands(WholeImage(image), MAX_RECTANGLE_BYTES)| == 1
  {
    BytesOfRows(image.width, image.height);
    QuotientAtLeast(MAX_RECTANGLE_BYTES, image.width * 4, image.height);
  }

  lemma FrameAlwaysTravels(f: Frame, image: Image, rs: seq<Rect>, c: Host.Setup)
    requires Default(c) && NeverEmpty(c.codecs) && Replica.Sendable(f, image, rs, c) && Modest(f, image, c)
    requires c.version != VERSION2 ==> image.width * image.height * 4 <= MAX_RECTANGLE_BYTES
    ensures Host.PlanFrame(f, c).Ok?
    ensures Host.SendAll(Host.PlanMessages(Host.PlanFrame(f, c).value), c).1 == None
  {
    hide Split, Greedy, FrameError, PartError, Modest, Replica.Sendable, ListSize, FitsPart;
    PartCount(f, image, rs, c);
    var plan := Host.PlanFrame(f, c).value;
    if c.version == VERSION2 && Split(f, c.limits).Ok? {
      PartsAccepted(f, image, rs, c);
    } else {
      if c.version == VERSION2 {
        WholeFitsOneMessage(f, image, rs, c);
      } else {
        V1Fits(f, image, rs, c);
      }
      WholeAccepted(f, image, rs, c);
    }
    AllAccepted(Host.PlanMessages(plan), c);
  }

  lemma WholeFitsOneMessage(f: Frame, image: Image, rs: seq<Rect>, c: Host.Setup)
    requires Replica.Tiled(c) && Replica.Sendable(f, image, rs, c) && Split(f, c.limits) == Err(FrameFits)
    ensures FRAME_HEADER_SIZE + ListSize(f.rectangles) <= c.limits.maxPixelPayload
  {
    hide EncodeAll, ListSize, Greedy, Split, Disjoint;
    SplitVerdicts(f, c.limits);
  }

  // ----- the host never refuses a legal capture


  lemma PreparedIsValid(image: Image, c: Host.Setup)
    requires Default(c) && ValidImage(image)
    ensures Host.Takes(image, c) && ValidImage(Host.Prepare(image, c))
    ensures c.version != VERSION2 ==>
              Host.Prepare(image, c).width * Host.Prepare(image, c).height * 4 <= MAX_RECTANGLE_BYTES
  {
    hide AllAverages, Readable, FactorFrom;
    Host.WellSizedIsTaken(image, c);
    RowBudgetFits(image.width, image.height, MAX_RECTANGLE_BYTES);
  }

  /** Under the default limits no legal capture is ever refused, in either version and
      whatever came before: no rectangle limit, no packing error, no message over a cap. */
  lemma HostNeverRefuses(h: Host.State, image: Image, force: bool, c: Host.Setup)
    requires Default(c) && NeverEmpty(c.codecs) && ValidImage(image) && MemoryOk(h.memory, c.damage, c.codecs.hash)
    ensures Host.Takes(image, c) && Host.SendCapture(h, image, force, c).2 == None
  {
    hide Compare, Host.Takes, Factor, Modest, Host.SendAll, Host.PlanFrame, MemoryOk, NeverEmpty, Host.SendError,
         Replica.Captured;
    PreparedIsValid(image, c);
    var prepared := Host.Prepare(image, c);
    var forced := force || h.keyframeRequested;
    CompareModest(h.memory, prepared, forced, c);
    var (memory, r) := Compare(h.memory, prepared, forced, c.damage, c.codecs);
    if r.value.Some? {
      var f := r.value.value;
      var rs := Replica.CaptureSends(h.memory, prepared, forced, c);
      CapturedIsSendable(h.memory, memory, f, prepared, rs, c);
      FrameAlwaysTravels(f, prepared, rs, c);
      AnnouncementSent(f, prepared, c);
    }
  }

  lemma CapturedIsSendable(m: Memory, m': Memory, f: Frame, image: Image, rs: seq<Rect>, c: Host.Setup)
    requires Replica.Tiled(c) && Replica.Captured(m, m', f, image, rs, c)
    ensures Replica.Sendable(f, image, rs, c) && 0 < f.header.generation
  {
    hide EncodeAll, Hashes, Disjoint;
  }

  lemma AnnouncementSent(f: Frame, image: Image, c: Host.Setup)
    requires Default(c) && ValidImage(image) && 0 < f.header.generation
    ensures Host.SendError(Display(DisplayConfig(f.header.generation, image.width, image.height, 0, 0, PIXEL_BGRA8888)), c)
            == None
  {
  }

  ghost predicate AllLegal(hs: seq<Host.Happening>) {
    forall k :: 0 <= k < |hs| ==>
      match hs[k]
      case Taken(image, _, beats) => ValidImage(image) && forall j :: 0 <= j < |beats| ==> Host.Heartbeats(beats[j])
      case Beat(m) => m.Ping? || m.Pong?
      case Received(_, _) => true
  }

  lemma LegalIsPossible(hs: seq<Host.Happening>, c: Host.Setup)
    requires Default(c) && AllLegal(hs)
    ensures Host.Possible(hs, c)
  {
    hide Host.Takes, Host.Heartbeats;
    forall k | 0 <= k < |hs| && hs[k].Taken?
      ensures Host.Takes(hs[k].image, c)
    {
      Host.WellSizedIsTaken(hs[k].image, c);
    }
  }

  lemma HeartbeatSent(m: Message, c: Host.Setup)
    requires Default(c) && (m.Ping? || m.Pong?)
    ensures Host.SendError(m, c) == None
  {
  }

  lemma {:induction false} InterleavedSendable(sent: seq<Message>, beats: seq<seq<Message>>, c: Host.Setup)
    requires Default(c) && System.AllSendable(sent, c)
    requires forall k :: 0 <= k < |beats| ==> Host.Heartbeats(beats[k])
    ensures System.AllSendable(System.Interleave(sent, beats), c)
    decreases |sent|
  {
    hide Host.SendError;
    if sent != [] && beats != [] {
      InterleavedSendable(sent[1..], beats[1..], c);
      forall k | 0 <= k < |beats[0]|
        ensures Host.SendError(beats[0][k], c) == None
      {
        HeartbeatSent(beats[0][k], c);
      }
    }
  }

  /** Everything a capture without an error handed over was accepted by the encoder. */
  lemma CaptureSendable(h: Host.State, image: Image, force: bool, c: Host.Setup)
    requires Default(c) && MemoryOk(h.memory, c.damage, c.codecs.hash) && Host.Takes(image, c)
    requires Host.SendCapture(h, image, force, c).2 == None
    ensures System.AllSendable(Host.SendCapture(h, image, force, c).1, c)
  {
    hide Compare, Host.SendAll, Host.PlanFrame, Host.SendError, Host.PlanMessages, MemoryOk;
    Host.SendCaptureMemory(h, image, force, c);
    var prepared := Host.Prepare(image, c);
    var (_, r) := Compare(h.memory, prepared, force || h.keyframeRequested, c.damage, c.codecs);
    if r.value.Some? {
      Replica.AllSent(Host.PlanMessages(Host.PlanFrame(r.value.value, c).value), c);
    }
  }

  /** With the shipped defaults the replica theorem needs no proviso: no run of legal
      captures, heartbeats and client messages ever ends in a host error. */
  lemma {:induction false} DefaultRunsNeverFail(h: Host.State, s: CS.State, hs: seq<Host.Happening>,
                                                c: Host.Setup, client: CS.Setup)
    requires Default(c) && NeverEmpty(c.codecs) && System.Ready(h, s, c, client) && AllLegal(hs)
    ensures Host.Possible(hs, c) && System.Played(h, s, hs, c, client).ok
    decreases |hs|
  {
    hide Host.SendCapture, Host.HandleInput, Replica.EventsOf, MemoryOk, ClientRuns.Run, Host.Takes, Host.Possible;
    hide System.Interleave, System.AllSendable, NeverEmpty, Host.Heartbeats;
    LegalIsPossible(hs, c);
    if hs != [] {
      var before, x := hs[..|hs| - 1], hs[|hs| - 1];
      System.LastPossible(hs, c);
      DefaultRunsNeverFail(h, s, before, c, client);
      var p := System.Played(h, s, before, c, client);
      match x
      case Taken(image, force, beats) =>
        HostNeverRefuses(p.host, image, force, c);
        CaptureSendable(p.host, image, force, c);
        InterleavedSendable(Host.SendCapture(p.host, image, force, c).1, beats, c);
      case Beat(m) =>
        HeartbeatSent(m, c);
        OneSendable(m, c);
      case Received(m, now) =>
        AnswerSendable(p.host, m, now, c);
    }
  }

  lemma OneSendable(m: Message, c: Host.Setup)
    requires Host.SendError(m, c) == None
    ensures System.AllSendable([m], c) && System.AllSendable([], c)
  {
  }

  lemma AnswerSendable(h: Host.State, m: Message, now: int, c: Host.Setup)
    requires Default(c) && MemoryOk(h.memory, c.damage, c.codecs.hash)
    ensures System.Act(h, Host.Received(m, now), c).2
  {
    hide Host.HandleInput, MemoryOk;
    HeartbeatSent(Pong(0), c);
    var (_, r) := Host.HandleInput(h, m, now, c);
    if r.Answer? {
      HeartbeatSent(Pong(r.nonce), c);
    }
  }
}
