/** A session that a change of geometry ends because a key was pressed just before it. */
module LinkStale {
  import opened Types
  import opened Messages
  import opened Validation
  import opened Damage
  import Fnv
  import Host
  import Replica
  import WireBounds
  import CS = ClientState
  import CI = ClientInput
  import opened Link

  lemma Snoc(input: CI.State, moves: seq<Move>, m: Move, c: Host.Setup, client: CS.Setup)
    requires Host.SetupOk(c)
    ensures After(input, moves + [m], c, client) == Next(After(input, moves, c, client), m, c, client)
  {
    hide Next, Sound;
    assert (moves + [m])[..|moves + [m]| - 1] == moves;
  }

  /** The shipped limits on both ends of a v1 session with input enabled. */
  ghost predicate Shipped(c: Host.Setup, client: CS.Setup) {
    && WireBounds.Default(c) && WireBounds.NeverEmpty(c.codecs) && c.version == VERSION1 && c.enableInput
    && Bounded(client.limits) == c.limits
  }

  lemma ShippedIsOk(c: Host.Setup, client: CS.Setup)
    requires Shipped(c, client)
    ensures Host.SetupOk(c) && c.limits == DEFAULT_LIMITS
  {
  }

  /** A capture of a geometry the host does not remember. */
  ghost predicate NewGeometry(m: Memory, image: Image) {
    ValidImage(image) && (m.previous.pixels == [] || Replica.GeometryChanged(m, image))
  }

  /** Such a capture turns into a keyframe of the next generation, planned whole. */
  lemma NewGeometryCompared(m: Memory, image: Image, force: bool, c: Host.Setup, client: CS.Setup)
    requires Shipped(c, client) && MemoryOk(m, c.damage, c.codecs.hash) && NewGeometry(m, image)
    ensures var (m', r) := Compare(m, image, force, c.damage, c.codecs);
            && r.Ok? && r.value.Some? && Host.PlanFrame(r.value.value, c) == Ok(Host.Whole(r.value.value))
            && r.value.value.header.generation == m'.generation == Replica.NextGeneration(m, image)
            && m'.previous == image && 0 < m'.generation
            && Host.SendError(Display(ConfigOf(r.value.value, image)), c) == None
  {
    hide FullFrame, CompareTiles, StoredHashes, WireBounds.Modest, Replica.IsDelta, Replica.Sendable;
    WireBounds.CompareModest(m, image, force, c);
    var (m', r) := Compare(m, image, force, c.damage, c.codecs);
    var next := m.(generation := Replica.NextGeneration(m, image), sequence := m.sequence + 1);
    Replica.FullFrameSends(next, image, c);
    WireBounds.AnnouncementSent(r.value.value, image, c);
  }

  // ----- the host's part: a capture of a new geometry, up to the stored generation

  /** n advances. */
  ghost function Advanced(l: Session, n: nat, c: Host.Setup, client: CS.Setup): (l': Session)
    requires Sound(l, c, client)
    ensures Sound(l', c, client)
  {
    if n == 0 then l
    else
      StaysSound(Advanced(l, n - 1, c, client), Advance, c, client);
      Next(Advanced(l, n - 1, c, client), Advance, c, client)
  }

  function Advances(n: nat): seq<Move> {
    if n == 0 then [] else Advances(n - 1) + [Advance]
  }

  lemma {:induction false} AfterAdvances(input: CI.State, moves: seq<Move>, n: nat, c: Host.Setup, client: CS.Setup)
    requires Host.SetupOk(c)
    ensures After(input, moves + Advances(n), c, client) == Advanced(After(input, moves, c, client), n, c, client)
  {
    hide Next, Sound, After;
    if n == 0 {
      assert moves + [] == moves;
    } else {
      AfterAdvances(input, moves, n - 1, c, client);
      Snoc(input, moves + Advances(n - 1), Advance, c, client);
      assert moves + (Advances(n - 1) + [Advance]) == moves + Advances(n - 1) + [Advance];
    }
  }

  /** One advance of a live session with a capture under way. */
  lemma AdvanceContinues(l: Session, c: Host.Setup, client: CS.Setup)
    requires Sound(l, c, client) && l.live && l.stage != Waiting
    ensures Next(l, Advance, c, client) == Continue(l, c)
  {
    hide Sound, Continue;
  }

  lemma PlansNewGeometry(l: Session, c: Host.Setup, client: CS.Setup) returns (f: Frame)
    requires Shipped(c, client) && Sound(l, c, client) && l.stage == Measured
    requires NewGeometry(l.host.memory, Host.Prepare(l.job.image, c))
    ensures var l', image := Continue(l, c), Host.Prepare(l.job.image, c);
            && l' == l.(stage := Planned(f, Host.Whole(f)), host := l.host.(memory := l'.host.memory))
            && f.header.generation == l'.host.memory.generation == Replica.NextGeneration(l.host.memory, image)
            && l'.host.memory.previous == image && 0 < f.header.generation
            && Host.SendError(Display(ConfigOf(f, image)), c) == None
  {
    hide Compare, MemoryOk, CS.Inv, Host.Takes, Host.PlanFrame, Host.Prepare, Host.SendError, NewGeometry,
         WireBounds.NeverEmpty;
    var image, force := Host.Prepare(l.job.image, c), l.job.force || l.job.from.keyframeRequested;
    NewGeometryCompared(l.host.memory, image, force, c, client);
    f := Compare(l.host.memory, image, force, c.damage, c.codecs).1.value.value;
  }

  /** From a taken capture of a new geometry to the stored generation: four advances. */
  lemma AnnouncesNewGeometry(l: Session, c: Host.Setup, client: CS.Setup) returns (l': Session, f: Frame)
    requires Shipped(c, client) && Sound(l, c, client) && l.live && l.stage == Taken
    requires NewGeometry(l.host.memory, Host.Prepare(l.job.image, c))
    requires Replica.NextGeneration(l.host.memory, Host.Prepare(l.job.image, c)) != l.host.generation
    ensures Sound(l', c, client)
    ensures var image := Host.Prepare(l.job.image, c);
            var config := ConfigOf(f, image);
            && l' == l.(stage := Sending([WholeFrame(f)]), job := l.job.(sent := l'.job.sent), host := l'.host,
                        down := l.down + [Display(config)], announced := l.announced + [config])
            && l'.host.generation == l'.host.memory.generation == f.header.generation
            && f.header.generation == Replica.NextGeneration(l.host.memory, image) && 0 < f.header.generation
            && l'.host.memory.previous == image && Host.SendError(Display(config), c) == None
    ensures l' == Advanced(l, 4, c, client)
  {
    hide MemoryOk, CS.Inv, Host.Takes, Host.Prepare, Host.SendError, NewGeometry, Prepared, WireBounds.NeverEmpty,
         WireBounds.Default;
    hide Sound;
    var l1 := Follow(l, 0, l, c, client);
    f := PlansNewGeometry(l1, c, client);
    var l2 := Follow(l, 1, l1, c, client);
    var l3 := Follow(l, 2, l2, c, client);
    l' := Follow(l, 3, l3, c, client);
  }

  lemma Follow(l: Session, n: nat, at: Session, c: Host.Setup, client: CS.Setup) returns (next: Session)
    requires Sound(l, c, client) && at == Advanced(l, n, c, client) && at.live && at.stage != Waiting
    ensures Sound(at, c, client) && Sound(next, c, client) && next == Continue(at, c) == Advanced(l, n + 1, c, client)
  {
    hide Next, Sound, Continue;
    AdvanceContinues(at, c, client);
    next := Advanced(l, n + 1, c, client);
  }

  /** The rest of a capture planned whole: its one frame, and then the next may come. */
  lemma FinishesFrame(l: Session, f: Frame, c: Host.Setup, client: CS.Setup)
    requires Sound(l, c, client) && l.live && l.stage == Sending([WholeFrame(f)])
    requires Host.SendError(WholeFrame(f), c) == None
    ensures Advanced(l, 2, c, client) == l.(stage := Waiting, serving := true, down := l.down + [WholeFrame(f)],
                                            job := l.job.(sent := l.job.sent + [WholeFrame(f)]))
  {
    hide MemoryOk, CS.Inv, Host.Takes, Host.Prepare, Host.SendError, Prepared, Sound;
    var l1 := Follow(l, 0, l, c, client);
    assert [WholeFrame(f)][1..] == [];
    var l2 := Follow(l, 1, l1, c, client);
  }

  /** Under the shipped limits the one frame of a staged capture is accepted. */
  lemma FrameAccepted(l: Session, f: Frame, c: Host.Setup, client: CS.Setup)
    requires Shipped(c, client) && Sound(l, c, client) && l.live && l.stage == Sending([WholeFrame(f)])
    requires AtomicSoFar(l, c) && ValidImage(l.job.image)
    ensures Host.SendError(WholeFrame(f), c) == None
  {
    hide MemoryOk, CS.Inv, Host.Takes, Host.SendCapture, Host.SendError, WireBounds.NeverEmpty, WireBounds.Default;
    WireBounds.HostNeverRefuses(l.job.from, l.job.image, l.job.force, c);
    assert Host.SendAll([WholeFrame(f)], c).1 == None;
  }

  // ----- the client's part: the display, Connect, focus, and a key

  /** The first DISPLAY_CONFIG a blank framebuffer gets from a host within its limits. */
  lemma DisplayApplied(l: Session, config: DisplayConfig, c: Host.Setup, client: CS.Setup)
    requires Sound(l, c, client) && l.live && l.phase == Greeting && l.screen == CS.BLANK
    requires l.down != [] && l.down[0] == Display(config) && Host.SendError(Display(config), c) == None
    requires Bounded(client.limits) == c.limits && 0 < config.generation
    requires config.width * config.height * 4 <= MAX_PIXEL_PAYLOAD_HARD * 16
    ensures var l' := Next(l, ClientReads, c, client);
            && l' == l.(down := l.down[1..], screen := l'.screen, phase := Joining,
                        input := l.input.(generation := config.generation, width := config.width, height := config.height))
  {
    hide MemoryOk, Host.Takes, MessageError, DisplayError, CS.Inv;
    Replica.AnnouncementAccepted(config, c, client.limits);
  }

  /** Connect, focus, and key 4 down: the key goes up, stamped with the display's generation. */
  lemma KeyGoesUp(s: CI.State, client: CS.Setup)
    requires s.hasSender && 0 < s.generation && 0 < s.width && 0 < s.height
    requires Bounded(client.limits) == DEFAULT_LIMITS
    ensures var connected := CI.Perform(s, CI.Connect, 0).state;
            var focused := CI.Perform(connected, CI.SetFocused(true), 0);
            var pressed := CI.Perform(focused.state, CI.PressKey(4, CI.DOWN, 0), 1);
            && focused.sent == [] && pressed.sent == [Key(s.generation, s.sequence + 1, 4, CI.DOWN, 0)]
            && FromWindow(connected, CI.SetFocused(true)) && FromWindow(focused.state, CI.PressKey(4, CI.DOWN, 0))
            && Encodable(focused.sent, client) && Encodable(pressed.sent, client)
  {
    hide MessageError;
    var m := Key(s.generation, s.sequence + 1, 4, CI.DOWN, 0);
    KeyIsValid(s.generation, s.sequence + 1, client.limits);
    KeyIsValid(s.generation, s.sequence + 1, DEFAULT_LIMITS);
    var connected := CI.Perform(s, CI.Connect, 0).state;
    var focused := CI.Perform(connected, CI.SetFocused(true), 0).state;
    assert 4 !in focused.keys && CI.Active(focused);
  }

  lemma KeyIsValid(generation: nat, sequence: nat, limits: Limits)
    requires 0 < generation && 0 < sequence && Bounded(limits) == DEFAULT_LIMITS
    ensures MessageError(Key(generation, sequence, 4, CI.DOWN, 0), limits) == None
  {
  }

  // ----- the run

  function FirstShown(a: Image): seq<Move> { [Take(a, false)] + Advances(4) + Advances(2) }

  const KEY_DOWN: seq<Move> :=
    [ClientReads, Joins, Operates(CI.SetFocused(true), 0), Operates(CI.PressKey(4, CI.DOWN, 0), 1)]

  /** A capture is shown, the client focuses its window and presses a key, and a capture of
      another geometry gets as far as storing its generation. */
  function BeforeTheKeyArrives(a: Image, b: Image): seq<Move> {
    FirstShown(a) + KEY_DOWN + [Take(b, false)] + Advances(4)
  }

  /** The host serves, and has announced the geometry of image. */
  ghost predicate Serving(l: Session, image: Image) {
    && l.live && l.serving && l.stage == Waiting && l.up == []
    && l.host.generation == l.host.memory.generation == 1 && l.host.memory.previous == image
  }

  lemma TakesCapture(l: Session, image: Image, c: Host.Setup, client: CS.Setup)
    requires Sound(l, c, client) && l.live && l.stage == Waiting && Host.Takes(image, c)
    ensures Next(l, Take(image, false), c, client) == Begin(l, image, false)
  {
    hide Sound, Begin;
  }

  lemma FirstCaptureServed(input: CI.State, a: Image, c: Host.Setup, client: CS.Setup)
    requires Shipped(c, client) && Fresh(input) && ValidImage(a) && Host.Takes(a, c)
    ensures var l := After(input, FirstShown(a), c, client);
            && Serving(l, Host.Prepare(a, c)) && l.phase == Greeting && l.screen == CS.BLANK && l.input == input
            && l.down != [] && l.down[0].Display? && l.down[0].config.generation == 1
            && l.down[0].config.width == Host.Prepare(a, c).width
               && l.down[0].config.height == Host.Prepare(a, c).height
            && Host.SendError(l.down[0], c) == None
  {
    hide After, Sound, Host.Takes, Host.Prepare, Host.SendError, AtomicSoFar, Advanced, MemoryOk, CS.Inv, Next;
    hide WireBounds.Default, WireBounds.NeverEmpty;
    ShippedIsOk(c, client);
    WireBounds.PreparedIsValid(a, c);
    var l0 := After(input, [], c, client);
    StartsBlank(input, c, client);
    TakesCapture(l0, a, c, client);
    Snoc(input, [], Take(a, false), c, client);
    assert [] + [Take(a, false)] == [Take(a, false)];
    var l1 := After(input, [Take(a, false)], c, client);
    var l2, f := AnnouncesNewGeometry(l1, c, client);
    AfterAdvances(input, [Take(a, false)], 4, c, client);
    RunAtomic(input, [Take(a, false)] + Advances(4), c, client);
    FrameAccepted(l2, f, c, client);
    FinishesFrame(l2, f, c, client);
    AfterAdvances(input, [Take(a, false)] + Advances(4), 2, c, client);
  }

  lemma StartsBlank(input: CI.State, c: Host.Setup, client: CS.Setup)
    requires Host.SetupOk(c)
    ensures After(input, [], c, client) == Start(input)
  {
  }

  lemma JoinsConnects(l: Session, c: Host.Setup, client: CS.Setup)
    requires Sound(l, c, client) && l.live && l.phase == Joining
    ensures Next(l, Joins, c, client) == l.(phase := Running, input := CI.Perform(l.input, CI.Connect, 0).state)
  {
    hide Sound, CI.Perform;
  }

  lemma WindowOperates(l: Session, op: CI.Operation, accepts: nat, c: Host.Setup, client: CS.Setup)
    requires Sound(l, c, client) && l.live && FromWindow(l.input, op)
             && Encodable(CI.Perform(l.input, op, accepts).sent, client)
    ensures Next(l, Operates(op, accepts), c, client) == Operated(l, op, accepts)
  {
    hide Sound, CI.Perform, FromWindow, Encodable;
  }

  /** The client's four moves put one key event on its way up. */
  lemma KeyOnItsWay(input: CI.State, a: Image, c: Host.Setup, client: CS.Setup)
    requires Shipped(c, client) && Fresh(input) && ValidImage(a) && Host.Takes(a, c)
    ensures var l, l0 := After(input, FirstShown(a) + KEY_DOWN, c, client), After(input, FirstShown(a), c, client);
            && l.live && l.serving && l.stage == Waiting && l.host == l0.host
            && l.up == [Key(1, input.sequence + 1, 4, CI.DOWN, 0)]
  {
    hide After, Sound, Host.Takes, Host.Prepare, Host.SendError, MemoryOk, CS.Inv, CI.Perform, FromWindow, Encodable,
         Next;
    hide WireBounds.Default, WireBounds.NeverEmpty, FirstShown;
    ShippedIsOk(c, client);
    FirstCaptureServed(input, a, c, client);
    WireBounds.PreparedIsValid(a, c);
    Replica.AreaFits(Host.Prepare(a, c));
    var m0 := FirstShown(a);
    var l0 := After(input, m0, c, client);
    DisplayApplied(l0, l0.down[0].config, c, client);
    Snoc(input, m0, KEY_DOWN[0], c, client);
    var m1 := m0 + [KEY_DOWN[0]];
    var l1 := After(input, m1, c, client);
    KeyGoesUp(l1.input, client);
    JoinsConnects(l1, c, client);
    Snoc(input, m1, KEY_DOWN[1], c, client);
    var m2 := m1 + [KEY_DOWN[1]];
    WindowOperates(After(input, m2, c, client), CI.SetFocused(true), 0, c, client);
    Snoc(input, m2, KEY_DOWN[2], c, client);
    var m3 := m2 + [KEY_DOWN[2]];
    WindowOperates(After(input, m3, c, client), CI.PressKey(4, CI.DOWN, 0), 1, c, client);
    Snoc(input, m3, KEY_DOWN[3], c, client);
    assert m3 + [KEY_DOWN[3]] == m0 + KEY_DOWN;
  }

  /** A change of geometry ends the session of an honest client: a key pressed before the client
      sees the new geometry arrives after the host has stored it, and is refused. */
  lemma StaleKeyEndsSession(input: CI.State, a: Image, b: Image, now: int, c: Host.Setup, client: CS.Setup)
    requires Shipped(c, client) && Fresh(input) && ValidImage(a) && ValidImage(b) && Host.Takes(a, c)
             && Host.Takes(b, c)
    requires var pa, pb := Host.Prepare(a, c), Host.Prepare(b, c);
             pa.width != pb.width || pa.height != pb.height
    ensures Host.SetupOk(c)
    ensures var l := After(input, BeforeTheKeyArrives(a, b), c, client);
            && l.live && l.up == [Key(1, input.sequence + 1, 4, CI.DOWN, 0)] && l.host.generation == 2
            && Host.HandleInput(l.host, l.up[0], now, c).1 == Host.Refused
            && !After(input, BeforeTheKeyArrives(a, b) + [HostReads(now)], c, client).live
  {
    hide After, Sound, Host.Takes, Host.Prepare, Host.SendError, Advanced, MemoryOk, CS.Inv, MessageError;
    hide WireBounds.Default, WireBounds.NeverEmpty, FirstShown, Advances;
    ShippedIsOk(c, client);
    FirstCaptureServed(input, a, c, client);
    WireBounds.PreparedIsValid(b, c);
    KeyOnItsWay(input, a, c, client);
    var m0 := FirstShown(a) + KEY_DOWN;
    var l0 := After(input, m0, c, client);
    TakesCapture(l0, b, c, client);
    Snoc(input, m0, Take(b, false), c, client);
    var m1 := m0 + [Take(b, false)];
    var l1 := After(input, m1, c, client);
    var l2, f := AnnouncesNewGeometry(l1, c, client);
    AfterAdvances(input, m1, 4, c, client);
    Snoc(input, BeforeTheKeyArrives(a, b), HostReads(now), c, client);
  }

  // ----- an instance

  const HOST := Host.Configured(VERSION1, DEFAULT_LIMITS, Config(64, 0.0, 0, 0), Codecs(x => [0] + x, Fnv.Hash), true, 0)

  const CLIENT := CS.Setup(DEFAULT_LIMITS, (x: seq<byte>) => if x == [] then None else Some(x[1..]))

  const NARROW := Image(1, 1, [0, 0, 0, 0])

  const WIDE := Image(2, 1, [0, 0, 0, 0, 0, 0, 0, 0])

  /** A fresh client, and a display that grows from one pixel to two. */
  lemma OnePixelWiderEndsSession(now: int)
    ensures Host.SetupOk(HOST) && Fresh(CI.FRESH)
    ensures !After(CI.FRESH, BeforeTheKeyArrives(NARROW, WIDE) + [HostReads(now)], HOST, CLIENT).live
  {
    hide After, Host.Takes, Host.Prepare, Fnv.Hash, Host.HandleInput;
    WireBounds.ShippedIsDefault(VERSION1, 64, HOST.codecs, true, 0);
    SmallIsSentAsIs(NARROW);
    SmallIsSentAsIs(WIDE);
    StaleKeyEndsSession(CI.FRESH, NARROW, WIDE, now, HOST, CLIENT);
  }

  lemma SmallIsSentAsIs(image: Image)
    requires 0 < image.width <= 2 && image.height == 1 && |image.pixels| == image.width * 4
    ensures ValidImage(image) && Host.Takes(image, HOST) && Host.Prepare(image, HOST) == image
  {
  }
}
