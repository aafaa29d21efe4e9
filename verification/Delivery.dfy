/** From captured images through bytes to shown pixels. */
module Delivery {
  import opened Types
  import opened Messages
  import opened Wire
  import opened Validation
  import opened Codec
  import opened Tiling
  import opened Damage
  import Packer
  import Host
  import Records
  import opened ClientState
  import opened ClientRuns
  import opened Replica
  import opened System

  // ----- everything the host sends has the widths the wire gives it

  /** The counters a message carries are within the detector's. */
  predicate WithinMemory(m: Message, memory: Memory) {
    match m
    case Display(config) => config.generation <= memory.generation && config.physicalWidth == config.physicalHeight == 0
    case WholeFrame(f) => HeaderWithin(f.header, memory)
    case Part(p) => HeaderWithin(p.header, memory)
    case Ping(nonce) => nonce <= U64_MAX
    case Pong(nonce) => nonce <= U64_MAX
    case _ => false
  }

  predicate HeaderWithin(h: Header, memory: Memory) {
    h.generation <= memory.generation && h.sequence <= memory.sequence && h.base <= h.sequence
  }

  lemma {:induction false} PixelsWithinList(rs: seq<Rectangle>, k: nat)
    requires k < |rs|
    ensures |rs[k].pixels| <= ListSize(rs)
  {
    if k < |rs| - 1 {
      PixelsWithinList(rs[..|rs| - 1], k);
    }
  }

  lemma ValidListIsTyped(rs: seq<Rectangle>, limits: Limits)
    requires limits == Bounded(limits) && ValidList(rs, limits) && ListSize(rs) <= limits.maxPixelPayload
    ensures TypedRectangles(rs)
  {
    hide ListSize;
    forall k | 0 <= k < |rs|
      ensures TypedRectangle(rs[k])
    {
      PixelsWithinList(rs, k);
      assert ValidRectangle(rs[k], limits);
    }
  }

  /** An accepted message within 64-bit counters fits the fields it travels in. */
  lemma AcceptedIsTyped(m: Message, memory: Memory, limits: Limits)
    requires limits == Bounded(limits) && MessageError(m, limits) == None && WithinMemory(m, memory)
    requires memory.generation <= U64_MAX && memory.sequence <= U64_MAX
    ensures Typed(m)
  {
    hide ValidList, ListError, TypedRectangles, ListSize;
    match m
    case WholeFrame(f) =>
      FrameAccepted(f, limits);
      ValidListIsTyped(f.rectangles, limits);
    case Part(p) =>
      PartAccepted(p, limits);
      ValidListIsTyped(p.rectangles, limits);
    case _ =>
  }

  // ----- along a run

  /** The nonces the heartbeats carry. */
  ghost predicate TypedNonces(ms: seq<Message>) {
    forall k :: 0 <= k < |ms| ==> (ms[k].Ping? || ms[k].Pong?) ==> ms[k].nonce <= U64_MAX
  }

  ghost predicate TypedHappening(x: Host.Happening) {
    match x
    case Taken(_, _, beats) => forall j :: 0 <= j < |beats| ==> TypedNonces(beats[j])
    case Beat(m) => TypedNonces([m])
    case Received(m, _) => TypedNonces([m])
  }

  /** Sent without an error, and within the detector's counters. */
  ghost predicate Sound(ms: seq<Message>, memory: Memory, c: Host.Setup) {
    forall k :: 0 <= k < |ms| ==> Host.SendError(ms[k], c) == None && WithinMemory(ms[k], memory)
  }

  lemma SoundLater(ms: seq<Message>, a: Memory, b: Memory, c: Host.Setup)
    requires Sound(ms, a, c) && a.generation <= b.generation && a.sequence <= b.sequence
    ensures Sound(ms, b, c)
  {
    hide Host.SendError;
  }

  lemma SoundConcat(a: seq<Message>, b: seq<Message>, memory: Memory, c: Host.Setup)
    requires Sound(a, memory, c) && Sound(b, memory, c)
    ensures Sound(a + b, memory, c)
  {
    hide Host.SendError, WithinMemory;
  }

  lemma HeartbeatsWithin(ms: seq<Message>, memory: Memory)
    requires Host.Heartbeats(ms) && TypedNonces(ms)
    ensures forall k :: 0 <= k < |ms| ==> WithinMemory(ms[k], memory)
  {
  }

  lemma {:induction false} InterleavedWithin(sent: seq<Message>, beats: seq<seq<Message>>, memory: Memory)
    requires forall k :: 0 <= k < |sent| ==> WithinMemory(sent[k], memory)
    requires forall j :: 0 <= j < |beats| ==> Host.Heartbeats(beats[j]) && TypedNonces(beats[j])
    ensures forall k :: 0 <= k < |Interleave(sent, beats)| ==> WithinMemory(Interleave(sent, beats)[k], memory)
    decreases |sent|
  {
    hide WithinMemory, Host.Heartbeats, TypedNonces;
    if sent != [] && beats != [] {
      InterleavedWithin(sent[1..], beats[1..], memory);
      HeartbeatsWithin(beats[0], memory);
    }
  }

  lemma PlanWithin(plan: Host.Plan, f: Frame, c: Host.Setup, memory: Memory)
    requires Host.PlanFrame(f, c) == Ok(plan) && HeaderWithin(f.header, memory)
    ensures var ms := Host.PlanMessages(plan);
            forall k :: 0 <= k < |ms| ==> WithinMemory(ms[k], memory)
  {
    hide Packer.Greedy, Packer.Packable, Packer.FitsPart;
    if plan.Parts? {
      Packer.SplitIsMinimalPacking(f, c.limits);
    }
  }

  /** What a capture hands over carries the counters it left the detector with. */
  lemma CaptureWithin(h: Host.State, image: Image, force: bool, c: Host.Setup)
    requires Tiled(c) && MemoryOk(h.memory, c.damage, c.codecs.hash) && Host.Takes(image, c)
    requires Host.SendCapture(h, image, force, c).2 == None
    ensures var (h', sent, _) := Host.SendCapture(h, image, force, c);
            && h.memory.generation <= h'.memory.generation && h.memory.sequence <= h'.memory.sequence
            && forall k :: 0 <= k < |sent| ==> WithinMemory(sent[k], h'.memory)
  {
    hide Compare, Host.SendAll, Host.PlanFrame, Host.PlanMessages, Host.SendError, Host.Prepare, MemoryOk, Host.Takes;
    hide WithinMemory;
    var prepared := Host.Prepare(image, c);
    var forced := force || h.keyframeRequested;
    Host.SendCaptureMemory(h, image, force, c);
    MemoryAdvances(h.memory, prepared, forced, c);
    var (memory, r) := Compare(h.memory, prepared, forced, c.damage, c.codecs);
    if r.value.Some? {
      var f := r.value.value;
      var plan := Host.PlanFrame(f, c).value;
      PlanWithin(plan, f, c, memory);
      AllSent(Host.PlanMessages(plan), c);
      AnnouncementWithin(f, prepared, memory);
    }
  }

  lemma AnnouncementWithin(f: Frame, image: Image, memory: Memory)
    requires f.header.generation <= memory.generation
    ensures WithinMemory(Display(DisplayConfig(f.header.generation, image.width, image.height, 0, 0, PIXEL_BGRA8888)), memory)
  {
  }

  lemma MemoryAdvances(m: Memory, image: Image, force: bool, c: Host.Setup)
    requires Tiled(c) && MemoryOk(m, c.damage, c.codecs.hash)
    requires Compare(m, image, force, c.damage, c.codecs).1.Ok?
    ensures var (m', r) := Compare(m, image, force, c.damage, c.codecs);
            && m.generation <= m'.generation && m.sequence <= m'.sequence
            && (r.value.Some? ==> HeaderWithin(r.value.value.header, m'))
  {
    hide StoredHashes, Dirty, EncodeAll, Bands, BandAll;
  }

  lemma ActWithin(h: Host.State, x: Host.Happening, c: Host.Setup)
    requires Tiled(c) && MemoryOk(h.memory, c.damage, c.codecs.hash) && Host.Allowed(x, c) && TypedHappening(x)
    requires (x.Taken? ==> Host.Takes(x.image, c)) && Act(h, x, c).2
    ensures var (h', sent, _) := Act(h, x, c);
            && h.memory.generation <= h'.memory.generation && h.memory.sequence <= h'.memory.sequence
            && Sound(sent, h'.memory, c)
  {
    hide Host.SendCapture, Host.HandleInput, Host.SendError, MemoryOk, Host.Takes, WithinMemory, Interleave,
         Host.Heartbeats;
    match x
    case Taken(image, force, beats) =>
      CaptureWithin(h, image, force, c);
      InterleavedWithin(Host.SendCapture(h, image, force, c).1, beats, Act(h, x, c).0.memory);
    case Beat(m) => OneHeartbeat(m, h.memory);
    case Received(m, now) =>
      ActKeepsMemory(h, x, c);
      AnswerWithin(h, m, now, c);
  }

  lemma OneHeartbeat(m: Message, memory: Memory)
    requires (m.Ping? || m.Pong?) && TypedNonces([m])
    ensures WithinMemory(m, memory)
  {
    assert [m][0].nonce <= U64_MAX;
  }

  lemma AnswerWithin(h: Host.State, m: Message, now: int, c: Host.Setup)
    requires TypedNonces([m])
    ensures var r := Host.HandleInput(h, m, now, c).1;
            r.Answer? ==> WithinMemory(Pong(r.nonce), h.memory)
  {
    assert m.Ping? ==> [m][0].nonce <= U64_MAX;
  }

  lemma {:induction false} WireIsSound(h: Host.State, s: State, hs: seq<Host.Happening>, c: Host.Setup, client: Setup)
    requires Tiled(c) && Ready(h, s, c, client) && Host.Possible(hs, c) && Played(h, s, hs, c, client).ok
    requires forall k :: 0 <= k < |hs| ==> TypedHappening(hs[k])
    ensures var p := Played(h, s, hs, c, client); Sound(p.wire, p.host.memory, c)
    decreases |hs|
  {
    hide Played, Act, Ready, Host.Possible, Sound, TypedHappening, EventsOf, Run, Host.Takes;
    if hs == [] {
      NothingPlayed(h, s, c, client);
      assert Sound([], h.memory, c) by { NothingSent(h.memory, c); }
    } else {
      var before, x := hs[..|hs| - 1], hs[|hs| - 1];
      LastPossible(hs, c);
      PlayedStep(h, s, hs, c, client);
      WireIsSound(h, s, before, c, client);
      var p := Played(h, s, before, c, client);
      ReadyInv(p.host, p.client, c, client);
      ActWithin(p.host, x, c);
      var (h', sent, _) := Act(p.host, x, c);
      SoundLater(p.wire, p.host.memory, h'.memory, c);
      SoundConcat(p.wire, sent, h'.memory, c);
    }
  }

  lemma NothingSent(memory: Memory, c: Host.Setup)
    ensures Sound([], memory, c)
  {
  }

  // ----- the bytes

  /** The record script of a list of messages. */
  function ScriptOf(ms: seq<Message>): (items: seq<Records.Item>)
    ensures |items| == |ms| && forall k :: 0 <= k < |ms| ==> items[k] == Records.Sent(ms[k])
  {
    seq(|ms|, k requires 0 <= k < |ms| => Records.Sent(ms[k]))
  }

  lemma {:induction false} SoundIsAccepted(ms: seq<Message>, memory: Memory, sequence: nat, c: Host.Setup)
    requires Sound(ms, memory, c) && c.limits == Bounded(c.limits) && c.version <= U16_MAX
    requires memory.generation <= U64_MAX && memory.sequence <= U64_MAX && sequence + |ms| <= U64_MAX
    ensures Records.Accepted(ScriptOf(ms), sequence, c.version, c.limits)
    ensures Records.SentMessages(ScriptOf(ms)) == ms
    decreases |ms|
  {
    hide MessageError, Typed, WithinMemory;
    if ms != [] {
      AcceptedIsTyped(ms[0], memory, c.limits);
      assert ScriptOf(ms)[1..] == ScriptOf(ms[1..]);
      SoundIsAccepted(ms[1..], memory, sequence + 1, c);
    }
  }

  /** End to end: over any run without a host error in which the detector's counters and the
      record numbers stay within 64 bits, the bytes the host's encoder writes decode, under the
      session's version and limits, to exactly the messages the host sent, with nothing left
      over; and a framebuffer fed with what was decoded rejects nothing and ends in sync,
      following the last captured image tile hash by tile hash. */
  lemma PixelsThroughBytes(h: Host.State, s: State, hs: seq<Host.Happening>, d: Records.Receiver, c: Host.Setup,
                           client: Setup)
    requires Matched(c, client) && InSync(h, s, c, client) && Host.Possible(hs, c) && Ready(h, s, c, client)
    requires Played(h, s, hs, c, client).ok && forall k :: 0 <= k < |hs| ==> TypedHappening(hs[k])
    requires var p := Played(h, s, hs, c, client);
             && p.host.memory.generation <= U64_MAX && p.host.memory.sequence <= U64_MAX
             && d.sequence + |p.wire| <= U64_MAX
    requires d.minVersion <= c.version <= d.maxVersion && c.version <= U16_MAX
    ensures var p := Played(h, s, hs, c, client);
            var bytes := Records.EncodeScript(ScriptOf(p.wire), d.sequence, c.version);
            var (decoded, left, err) := Records.DecodeScript(ScriptOf(p.wire), d, bytes, c.limits);
            var (shown, outcomes) := Run(s, EventsOf(decoded), client);
            && err == None && left == [] && decoded == p.wire && shown == p.client
            && NoneRejected(outcomes) && InSync(p.host, shown, c, client)
            && match LastTaken(hs)
               case None => shown == s
               case Some(image) => Host.Takes(image, c) && Follows(shown, Host.Prepare(image, c), c)
  {
    hide Played, Ready, Host.Possible, Sound, Run, EventsOf, InSync, Follows, Host.Takes, Host.Prepare;
    hide Records.Accepted, Records.EncodeScript, Records.DecodeScript, TypedHappening, LastTaken, NoneRejected;
    var p := Played(h, s, hs, c, client);
    ReadyInv(h, s, c, client);
    WireIsSound(h, s, hs, c, client);
    SoundIsAccepted(p.wire, p.host.memory, d.sequence, c);
    Records.StreamRoundTrip(ScriptOf(p.wire), d, c.version, c.limits);
    WireIsRun(h, s, hs, c, client);
    ClientFollowsHost(h, s, hs, c, client);
  }
}
