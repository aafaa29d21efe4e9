/** How a client that missed something catches up. */
module Recovery {
  import opened Types
  import opened Geometry
  import opened Messages
  import opened Validation
  import opened Packer
  import opened Tiling
  import opened Damage
  import Host
  import opened ClientState
  import opened ClientRuns
  import opened Reassembly
  import opened Replica
  import opened System

  /** The client is behind: idle, of the same generation and geometry, but without the frame
      the next delta builds on. */
  ghost predicate Behind(h: Host.State, s: State, c: Host.Setup, client: Setup)
    requires Tiled(c)
  {
    && Attached(h, s, c, client) && h.memory.previous.pixels != []
    && s.width == h.memory.previous.width && s.height == h.memory.previous.height
    && h.width == s.width && h.height == s.height
    && s.frameSequence <= h.memory.sequence
    && (s.keyframeRequired || s.frameSequence < h.memory.sequence)
  }

  // ----- a keyframe catches it up

  lemma KeyframeWelcomed(h: Host.State, s: State, m': Memory, f: Frame, image: Image, rs: seq<Rect>,
                         c: Host.Setup, client: Setup)
    requires Tiled(c) && Behind(h, s, c, client) && Captured(h.memory, m', f, image, rs, c)
    requires f.header.generation == h.generation && f.header.keyframe
    ensures Welcome(s, f.header, image, client) && image.width == h.width && image.height == h.height
  {
    hide EncodeAll, CoversImage, Inv, Hashes;
  }

  /** A keyframe a behind client receives, for whatever reason and of whatever geometry, is
      accepted and leaves it in sync and byte-equal to the captured image. */
  lemma KeyframeResyncs(h: Host.State, s: State, image: Image, force: bool, c: Host.Setup, client: Setup)
    requires Matched(c, client) && Behind(h, s, c, client) && Ready(h, s, c, client) && Host.Takes(image, c)
    requires Host.SendCapture(h, image, force, c).2 == None && SendsKeyframe(h, image, force, c)
    ensures var (h', sent, _) := Host.SendCapture(h, image, force, c);
            var (s', outs) := Run(s, EventsOf(sent), client);
            && NoneRejected(outs) && InSync(h', s', c, client) && s'.pixels == Host.Prepare(image, c).pixels
  {
    hide Compare, Run, Host.SendAll, Host.PlanFrame, Hashes, Sendable, Step, Welcome, Host.SendError, Inv;
    hide IsDelta, CoversImage;
    var prepared := Host.Prepare(image, c);
    var forced := force || h.keyframeRequested;
    Host.SendCaptureMemory(h, image, force, c);
    var (memory, r) := Compare(h.memory, prepared, forced, c.damage, c.codecs);
    var f := r.value.value;
    var rs := CaptureSends(h.memory, prepared, forced, c);
    ImageNotEmpty(prepared);
    var plan := Host.PlanFrame(f, c).value;
    if f.header.generation == h.generation {
      KeyframeWelcomed(h, s, memory, f, prepared, rs, c, client);
      WelcomeLands(h.memory, memory, s, f, prepared, rs, plan, c, client);
    } else {
      AnnouncementWelcomes(h, s, memory, f, prepared, rs, c, client);
      var config := Configure(Announcement(f, prepared));
      StepKeepsInvariant(s, config, client);
      WelcomeLands(h.memory, memory, Step(s, config, client).0, f, prepared, rs, plan, c, client);
      var sent := Host.SendAll(Host.PlanMessages(plan), c).0;
      EventsOfAnnounced(Announcement(f, prepared), sent);
      var events := EventsOf(sent);
      assert ([config] + events)[1..] == events;
      RunFirst(s, [config] + events, client);
    }
  }

  /** A forced or requested capture that goes through is a keyframe. */
  lemma ForcedSendsKeyframe(h: Host.State, image: Image, force: bool, c: Host.Setup)
    requires Tiled(c) && MemoryOk(h.memory, c.damage, c.codecs.hash) && Host.Takes(image, c)
    requires Host.SendCapture(h, image, force, c).2 == None && (force || h.keyframeRequested)
    ensures SendsKeyframe(h, image, force, c)
  {
    hide Compare, Host.Announce, Host.PlanFrame, Captured, Host.Prepare;
    var prepared := Host.Prepare(image, c);
    Host.SendCaptureMemory(h, image, force, c);
    ForcedAlwaysSends(h.memory, prepared, c);
    var rs := CaptureSends(h.memory, prepared, true, c);
  }

  /** A forced capture never goes unsent. */
  lemma ForcedAlwaysSends(m: Memory, image: Image, c: Host.Setup)
    requires Tiled(c) && MemoryOk(m, c.damage, c.codecs.hash)
    requires Compare(m, image, true, c.damage, c.codecs).1.Ok?
    ensures Compare(m, image, true, c.damage, c.codecs).1.value.Some?
  {
    hide StoredHashes, EncodeAll, CompareTiles;
  }

  // ----- anything else is asked about and drained

  /** At most one request, on the first message, and everything after it consumed. */
  ghost predicate AskedThenDrained(outs: seq<Outcome>) {
    outs == [] || (outs[0] == Rejected(KeyframeRequired) && forall k :: 1 <= k < |outs| ==> outs[k] == Consumed)
  }

  lemma UnsentKeepsMemory(m: Memory, image: Image, force: bool, c: Host.Setup)
    requires Tiled(c) && MemoryOk(m, c.damage, c.codecs.hash) && m.previous.pixels != []
    requires Compare(m, image, force, c.damage, c.codecs).1 == Ok(None)
    ensures Compare(m, image, force, c.damage, c.codecs).0 == m
  {
    hide StoredHashes, Dirty, EncodeAll, Bands, BandAll;
  }

  lemma WholeDeltaRefused(s: State, f: Frame, image: Image, rs: seq<Rect>, c: Host.Setup, client: Setup)
    requires Matched(c, client) && Sendable(f, image, rs, c) && FrameError(f, c.limits) == None
    requires Inv(s, client) && s.mode.Idle? && s.generation > 0 && f.header.generation == s.generation
    requires !f.header.keyframe && (s.keyframeRequired || f.header.base != s.frameSequence)
    ensures Run(s, [Apply(f)], client) == (s, [Rejected(KeyframeRequired)])
  {
    hide DrawFrame, FrameError, EncodeAll, Sendable, Disjoint;
    SameVerdict(f, c.limits, client.limits);
    RunOne(s, Apply(f), client);
    AcceptedIsRawSized(f.rectangles, Bounded(client.limits));
  }

  lemma PartsDeltaRefused(s: State, f: Frame, image: Image, rs: seq<Rect>, c: Host.Setup, client: Setup)
    requires Matched(c, client) && Sendable(f, image, rs, c) && Split(f, c.limits).Ok?
    requires forall k :: 0 <= k < |Split(f, c.limits).value| ==> PartError(Split(f, c.limits).value[k], c.limits) == None
    requires Inv(s, client) && s.mode.Idle? && s.generation > 0 && f.header.generation == s.generation
    requires s.width == image.width && s.height == image.height
    requires !f.header.keyframe && (s.keyframeRequired || f.header.base != s.frameSequence)
    ensures var (s', outs) := Run(s, PartEvents(Split(f, c.limits).value), client);
            s' == s && AskedThenDrained(outs)
  {
    hide EncodeAll, Split, PartError, Disjoint, ValidLogicalFrame, Inv, Run;
    PartsMakeValidFrame(f, image, rs, c, client.limits);
    assert Rects(f.rectangles) == rs;
    forall j | 0 <= j < |f.rectangles|
      ensures InsideDisplay(f.rectangles[j].rect, s.width, s.height)
    {
      assert f.rectangles[j].rect == rs[j] && InBounds(rs[j], image.width, image.height);
    }
    UnknownBaseIsDrained(s, f, client);
  }

  lemma PlanRefused(s: State, f: Frame, image: Image, rs: seq<Rect>, plan: Host.Plan, c: Host.Setup, client: Setup)
    requires Matched(c, client) && Sendable(f, image, rs, c)
    requires Inv(s, client) && s.mode.Idle? && s.generation > 0 && f.header.generation == s.generation
    requires s.width == image.width && s.height == image.height
    requires !f.header.keyframe && (s.keyframeRequired || f.header.base != s.frameSequence)
    requires Host.PlanFrame(f, c) == Ok(plan) && Host.SendAll(Host.PlanMessages(plan), c).1 == None
    ensures var (s', outs) := Run(s, EventsOf(Host.SendAll(Host.PlanMessages(plan), c).0), client);
            s' == s && AskedThenDrained(outs)
  {
    hide Run, Split, PartError, FrameError, EncodeAll, Inv, AskedThenDrained, Sendable;
    var ms := Host.PlanMessages(plan);
    AllSent(ms, c);
    match plan
    case Whole(_) =>
      assert ms[0] == WholeFrame(f) && ms[1..] == [];
      assert EventsOf(ms) == [Apply(f)];
      WholeDeltaRefused(s, f, image, rs, c, client);
      assert AskedThenDrained([Rejected(KeyframeRequired)]) by { OneRequest(); }
    case Parts(parts) =>
      PartMessageEvents(parts);
      forall k | 0 <= k < |parts|
        ensures PartError(parts[k], c.limits) == None
      {
        assert ms[k] == Part(parts[k]);
        assert Host.SendError(ms[k], c) == None;
      }
      PartsDeltaRefused(s, f, image, rs, c, client);
  }

  lemma OneRequest()
    ensures AskedThenDrained([Rejected(KeyframeRequired)]) && AskedThenDrained([])
  {
  }

  /** A capture that is no keyframe leaves a behind client exactly as it was, behind: it asks
      for a keyframe once and drains the rest, or sees nothing at all. */
  lemma DeltaRefused(h: Host.State, s: State, image: Image, force: bool, c: Host.Setup, client: Setup)
    requires Matched(c, client) && Behind(h, s, c, client) && Ready(h, s, c, client) && Host.Takes(image, c)
    requires Host.SendCapture(h, image, force, c).2 == None && !SendsKeyframe(h, image, force, c)
    ensures var (h', sent, _) := Host.SendCapture(h, image, force, c);
            var (s', outs) := Run(s, EventsOf(sent), client);
            s' == s && AskedThenDrained(outs) && Behind(h', s, c, client)
  {
    hide Compare, Run, Host.SendAll, Host.PlanFrame, Hashes, Sendable, Inv, AskedThenDrained, EventsOf, Host.Prepare;
    var prepared := Host.Prepare(image, c);
    var forced := force || h.keyframeRequested;
    Host.SendCaptureMemory(h, image, force, c);
    var (memory, r) := Compare(h.memory, prepared, forced, c.damage, c.codecs);
    match r.value {
      case None =>
        UnsentKeepsMemory(h.memory, prepared, forced, c);
        RunNothing(s, client);
        NoEvents();
        OneRequest();
      case Some(f) =>
        var rs := CaptureSends(h.memory, prepared, forced, c);
        ImageNotEmpty(prepared);
        PlanRefused(s, f, prepared, rs, Host.PlanFrame(f, c).value, c, client);
    }
  }

  // ----- whole runs

  /** Some capture was taken while a keyframe request was pending. */
  ghost predicate Answered(h: Host.State, s: State, hs: seq<Host.Happening>, c: Host.Setup, client: Setup)
    requires Ready(h, s, c, client) && Host.Possible(hs, c)
    decreases |hs|
  {
    hs != [] && (Answered(h, s, hs[..|hs| - 1], c, client) || AnswersLast(h, s, hs, c, client))
  }

  ghost predicate AnswersLast(h: Host.State, s: State, hs: seq<Host.Happening>, c: Host.Setup, client: Setup)
    requires Ready(h, s, c, client) && Host.Possible(hs, c) && hs != []
  {
    hs[|hs| - 1].Taken? && Played(h, s, hs[..|hs| - 1], c, client).host.keyframeRequested
  }

  /** The framebuffer refused nothing but deltas it has no base for. */
  ghost predicate OnlyAsks(outs: seq<Outcome>) {
    forall k :: 0 <= k < |outs| && outs[k].Rejected? ==> outs[k] == Rejected(KeyframeRequired)
  }

  lemma OnlyAsksMore(a: seq<Outcome>, b: seq<Outcome>)
    requires OnlyAsks(a) && (NoneRejected(b) || AskedThenDrained(b))
    ensures OnlyAsks(a + b)
  {
  }

  /** Where recovery stands: still behind, showing exactly what it showed, with no request
      answered yet; or in sync. */
  ghost predicate Recovering(h: Host.State, s: State, s0: State, answered: bool, c: Host.Setup, client: Setup)
    requires Tiled(c)
  {
    InSync(h, s, c, client) || (Behind(h, s, c, client) && s == s0 && !answered)
  }

  lemma CaptureRecovers(h: Host.State, s: State, s0: State, answered: bool, image: Image, force: bool,
                        c: Host.Setup, client: Setup)
    requires Matched(c, client) && Recovering(h, s, s0, answered, c, client) && Ready(h, s, c, client)
    requires Host.Takes(image, c) && Host.SendCapture(h, image, force, c).2 == None
    ensures var (h', sent, _) := Host.SendCapture(h, image, force, c);
            var (s', outs) := Run(s, EventsOf(sent), client);
            && (NoneRejected(outs) || AskedThenDrained(outs))
            && Recovering(h', s', s0, answered || h.keyframeRequested, c, client)
            && (h.keyframeRequested ==> s'.pixels == Host.Prepare(image, c).pixels)
  {
    hide InSync, Behind, Host.SendCapture, EventsOf, Run, Host.Prepare, Host.Takes, SendsKeyframe, NoneRejected;
    hide AskedThenDrained, Ready;
    ReadyInv(h, s, c, client);
    if h.keyframeRequested {
      ForcedSendsKeyframe(h, image, force, c);
    }
    if InSync(h, s, c, client) {
      CaptureKeepsSync(h, s, image, force, c, client);
    } else if SendsKeyframe(h, image, force, c) {
      KeyframeResyncs(h, s, image, force, c, client);
    } else {
      DeltaRefused(h, s, image, force, c, client);
    }
  }

  lemma InputKeepsRecovering(h: Host.State, s: State, s0: State, answered: bool, m: Message, now: int,
                             c: Host.Setup, client: Setup)
    requires Matched(c, client) && Recovering(h, s, s0, answered, c, client)
    ensures Recovering(Host.HandleInput(h, m, now, c).0, s, s0, answered, c, client)
  {
    hide Inv, Follows, MemoryOk;
  }

  /** Recovery: from any client that is behind, over any run of captures, heartbeats and client
      messages without a host error, the framebuffer answers with keyframe requests and drained
      parts only and shows what it showed, until a keyframe leaves both in sync. The first
      capture taken while a request is pending is such a keyframe at the latest, and right
      after it the client shows exactly that capture. */
  lemma {:induction false} RequestResyncs(h: Host.State, s: State, hs: seq<Host.Happening>, c: Host.Setup,
                                          client: Setup)
    requires Matched(c, client) && Behind(h, s, c, client) && Host.Possible(hs, c) && Ready(h, s, c, client)
    requires Played(h, s, hs, c, client).ok
    ensures var p := Played(h, s, hs, c, client);
            && OnlyAsks(p.outcomes)
            && Recovering(p.host, p.client, s, Answered(h, s, hs, c, client), c, client)
            && (hs != [] && AnswersLast(h, s, hs, c, client) ==>
                  Host.Takes(hs[|hs| - 1].image, c)
                  && p.client.pixels == Host.Prepare(hs[|hs| - 1].image, c).pixels)
    decreases |hs|
  {
    hide InSync, Behind, Host.SendCapture, Host.HandleInput, EventsOf, Run, Host.Prepare, Host.Takes, Ready;
    hide Host.Possible, Played, Recovering, OnlyAsks;
    if hs == [] {
      NothingPlayed(h, s, c, client);
      assert OnlyAsks([]) by { NothingAsked(); }
      assert Recovering(h, s, s, false, c, client) by { StillBehind(h, s, c, client); }
    } else {
      PlayedLast(h, s, hs, c, client);
      var before := hs[..|hs| - 1];
      RequestResyncs(h, s, before, c, client);
      var p := Played(h, s, before, c, client);
      var answered := Answered(h, s, before, c, client);
      match hs[|hs| - 1]
      case Received(m, now) => InputKeepsRecovering(p.host, p.client, s, answered, m, now, c, client);
      case Beat(_) =>
      case Taken(image, force, _) =>
        CaptureRecovers(p.host, p.client, s, answered, image, force, c, client);
        ReadyInv(p.host, p.client, c, client);
        OnlyAsksMore(p.outcomes, Run(p.client, EventsOf(Host.SendCapture(p.host, image, force, c).1), client).1);
    }
  }

  lemma NothingAsked()
    ensures OnlyAsks([])
  {
  }

  lemma StillBehind(h: Host.State, s: State, c: Host.Setup, client: Setup)
    requires Tiled(c) && Behind(h, s, c, client)
    ensures Recovering(h, s, s, false, c, client)
  {
  }

  /** A request the host has received stays pending until the next capture. */
  lemma RequestIsPending(h: Host.State, m: Message, now: int, c: Host.Setup)
    ensures m.KeyframeRequest? ==> Host.HandleInput(h, m, now, c).0 == h.(keyframeRequested := true)
    ensures h.keyframeRequested ==> Host.HandleInput(h, m, now, c).0.keyframeRequested
  {
    hide MessageError;
  }
}
