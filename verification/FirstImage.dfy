/** The plain exchange, from AUTH to the first image shown. */
module FirstImage {
  import opened Types
  import opened Messages
  import opened Validation
  import opened Damage
  import opened Wire
  import Host
  import CS = ClientState
  import CI = ClientInput
  import ClientRuns
  import Codec
  import Delivery
  import Handshake
  import Records
  import S = Session
  import E = Establishment
  import opened Replica
  import WireBounds
  import opened Link
  import LinkInput
  import LinkScreen
  import LinkStale
  import opened Wired

  // ----- the scripts

  const SMALLEST := DisplayConfig(1, 1, 1, 0, 0, PIXEL_BGRA8888)

  /** Under the shipped limits the right token is all establishment takes. */
  lemma ShippedEstablishes(s: E.Setup)
    requires E.Proper(s) && s.host.limits == DEFAULT_LIMITS && S.TokenAccepted(s.token, s.host.token)
    ensures E.CanEstablish(s, SMALLEST)
  {
    ZeroToken(s.token);
  }

  lemma ZeroToken(token: seq<byte>)
    requires |token| == 32
    ensures (forall k :: 0 <= k < |token| ==> token[k] == 0) ==> token == S.NO_TOKEN
  {
  }

  const GREETINGS: seq<Act> :=
    [Greet(E.ClientProceeds), Greet(E.ClientProceeds), Greet(E.HostReads(true, true)), Greet(E.HostReads(true, true)),
     Greet(E.ClientReads(true))]

  lemma Snoc(input: CI.State, acts: seq<Act>, a: Act, c: Host.Setup, client: CS.Setup, s: E.Setup)
    requires Host.SetupOk(c)
    ensures Wired.After(input, acts + [a], c, client, s) == Stepped(Wired.After(input, acts, c, client, s), a, c, client, s)
  {
    hide Stepped, Sound;
    assert (acts + [a])[..|acts + [a]| - 1] == acts;
  }

  /** Both ends' scripts, step by step. */
  lemma ScriptsRun(s: E.Setup)
    requires E.CanEstablish(s, SMALLEST)
    ensures var p1 := E.Step(E.START, E.ClientProceeds, s);
            var p2 := E.Step(p1, E.ClientProceeds, s);
            var p3 := E.Step(p2, E.HostReads(true, true), s);
            var p4 := E.Step(p3, E.HostReads(true, true), s);
            var p5 := E.Step(p4, E.ClientReads(true), s);
            && p1.client.phase.SendHello? && p1.host == E.START.host
            && p2.client.phase.AwaitAnswer? && p2.host == E.START.host && p2.toHost != []
            && p3.client == p2.client && p3.host.phase.AwaitHello? && p3.toHost != []
            && p4.client == p2.client && p4.host.phase.Serving? && p4.toClient != []
            && p5.client.phase.AwaitDisplay? && p5.host == p4.host
  {
    hide E.Stream, E.CanEstablish, E.ClientShape, S.ServingEnd;
    E.GreetingsSent(s, SMALLEST);
    var p1 := E.Step(E.START, E.ClientProceeds, s);
    var p2 := E.Step(p1, E.ClientProceeds, s);
    FirstSent(s);
    StreamHolds(E.Greetings(s));
    AuthHeard(p2, s);
    E.HostHears(p2, s, SMALLEST);
    StreamHolds([E.Answer(s)]);
    var p3 := E.Step(p2, E.HostReads(true, true), s);
    AnswerHeard(E.Step(p3, E.HostReads(true, true), s), s);
  }

  lemma FirstSent(s: E.Setup)
    requires E.CanEstablish(s, SMALLEST)
    ensures var p := E.Step(E.START, E.ClientProceeds, s); p.client.phase.SendHello? && p.host == E.START.host
  {
    hide Records.Record, Records.EncodeError, S.TokenAccepted, Codec.Typed;
  }

  lemma AuthHeard(p: E.Pair, s: E.Setup)
    requires E.CanEstablish(s, SMALLEST) && p.host == E.START.host && p.toHost == E.Stream(E.Greetings(s))
    ensures var p' := E.Step(p, E.HostReads(true, true), s);
            p'.client == p.client && p'.host.phase.AwaitHello? && p'.toHost != []
  {
    hide Records.Record, Records.EncodeError, Records.DecodeRecord, S.TokenAccepted, Codec.Typed, E.Stream;
    var qs := E.Greetings(s);
    E.ExchangeIsSound(s, SMALLEST);
    StreamHolds(qs);
    StreamHolds(qs[1..]);
    E.HeadDecodes(p.host.end, qs, s);
  }

  lemma AnswerHeard(p: E.Pair, s: E.Setup)
    requires E.CanEstablish(s, SMALLEST) && p.toClient == E.Stream([E.Answer(s)])
    requires p.client.phase.AwaitAnswer? && E.ClientShape(p.client, E.Agreed(s))
    ensures var p' := E.Step(p, E.ClientReads(true), s); p'.client.phase.AwaitDisplay? && p'.host == p.host
  {
    hide Records.Record, Records.EncodeError, Records.DecodeRecord, S.TokenAccepted, Codec.Typed, E.Stream;
    E.ExchangeIsSound(s, SMALLEST);
    StreamHolds([E.Answer(s)]);
    E.HeadDecodes(p.client.end, [E.Answer(s)], s);
  }

  /** After the scripts the client awaits its display, the host serves, and the session is untouched. */
  lemma Greeted(input: CI.State, c: Host.Setup, client: CS.Setup, s: E.Setup)
    requires Host.SetupOk(c) && E.CanEstablish(s, SMALLEST)
    ensures var w := Wired.After(input, GREETINGS, c, client, s);
            && w.link == Start(input) && w.calls == 5 && Open(w)
            && w.pair.client.phase.AwaitDisplay? && w.pair.host.phase.Serving?
  {
    hide E.Step, E.CanEstablish, Wired.After, Sound, Stepped;
    ScriptsRun(s);
    StartsWired(input, c, client, s);
    GreetStepped(input, [], E.ClientProceeds, c, client, s);
    var g := [] + [Greet(E.ClientProceeds)];
    GreetStepped(input, g, E.ClientProceeds, c, client, s);
    g := g + [Greet(E.ClientProceeds)];
    GreetStepped(input, g, E.HostReads(true, true), c, client, s);
    g := g + [Greet(E.HostReads(true, true))];
    GreetStepped(input, g, E.HostReads(true, true), c, client, s);
    g := g + [Greet(E.HostReads(true, true))];
    GreetStepped(input, g, E.ClientReads(true), c, client, s);
    assert g + [Greet(E.ClientReads(true))] == GREETINGS;
  }

  lemma GreetStepped(input: CI.State, acts: seq<Act>, a: E.Action, c: Host.Setup, client: CS.Setup, s: E.Setup)
    requires Host.SetupOk(c)
    requires var w := Wired.After(input, acts, c, client, s);
             Open(w) && CanGreet(w.pair, a) && w.calls < U64_MAX
    ensures var w := Wired.After(input, acts, c, client, s);
            Wired.After(input, acts + [Greet(a)], c, client, s) == Connection(E.Step(w.pair, a, s), w.link, w.calls + 1)
  {
    hide E.Step, Wired.After, Sound, CanGreet;
    Snoc(input, acts, Greet(a), c, client, s);
  }

  lemma StartsWired(input: CI.State, c: Host.Setup, client: CS.Setup, s: E.Setup)
    requires Host.SetupOk(c)
    ensures Wired.After(input, [], c, client, s) == Connection(E.START, Start(input), 0)
  {
  }

  // ----- one move of the session

  /** A move both ends are there for is made. */
  lemma Served(w: Connection, m: Move, c: Host.Setup, client: CS.Setup, s: E.Setup)
    requires Sound(w.link, c, client) && Open(w) && CanServe(w.pair, m) && Possible(w.link, m, c, client)
    requires var calls := Calls(w.link, m, Next(w.link, m, c, client));
             AllTyped(calls) && w.calls + |calls| <= U64_MAX
    ensures var l' := Next(w.link, m, c, client);
            var calls := Calls(w.link, m, l');
            Stepped(w, Serve(m), c, client, s) == Connection(Performed(w.pair, calls, s), l', w.calls + |calls|)
  {
    hide Sound, Next, Calls, CanServe, Possible, AllTyped, Performed;
  }

  /** A capture under way means that the host serves. */
  lemma UnderWayServes(w: Connection, h: seq<E.Queued>, t: seq<E.Queued>, c: Host.Setup, client: CS.Setup, s: E.Setup)
    requires Ongoing(w, h, t, c, client, s) && (w.link.stage != Waiting || w.link.announced != [])
    ensures w.pair.host.phase.Serving?
  {
    hide E.Joined, Fits, Sound, LinkInput.Honest, LinkInput.Unannounced, Texts;
  }

  /** The host's writes do not touch the client. */
  lemma WritesKeepClient(p: E.Pair, ms: seq<Message>, s: E.Setup)
    requires |ms| <= 1
    ensures Performed(p, WritesOfHost(ms), s).client == p.client
    ensures |WritesOfHost(ms)| == |ms|
  {
    hide Handshake.Send, Handshake.Written;
    if ms != [] {
      OnePerformed(p, E.HostWrites(ms[0]), [], s);
      assert WritesOfHost(ms) == [E.HostWrites(ms[0])];
    } else {
      assert WritesOfHost(ms) == [];
    }
  }

  /** An advance that writes at most one typed message. */
  lemma AdvanceServed(input: CI.State, acts: seq<Act>, ms: seq<Message>, c: Host.Setup, client: CS.Setup, s: E.Setup)
    requires Paired(c, client, s) && Fresh(input)
    requires var w := Wired.After(input, acts, c, client, s);
             && Open(w) && w.link.stage != Waiting && w.calls + 1 <= U64_MAX
             && Next(w.link, Advance, c, client).down == w.link.down + ms && |ms| <= 1
             && (forall k :: 0 <= k < |ms| ==> Codec.Typed(ms[k]))
             && Next(w.link, Advance, c, client).live
    ensures var w, w' := Wired.After(input, acts, c, client, s), Wired.After(input, acts + [Serve(Advance)], c, client, s);
            && Open(w') && w'.link == Next(w.link, Advance, c, client) && w'.pair.client == w.pair.client
            && w'.calls == w.calls + |ms|
  {
    hide Wired.After, Sound, Next, E.Step, Codec.Typed, Performed, LinkInput.Honest, LinkInput.Unannounced, Carried,
         Fits, Stepped;
    var w := Wired.After(input, acts, c, client, s);
    var l' := Next(w.link, Advance, c, client);
    var h, t := RunCarried(input, acts, c, client, s);
    UnderWayServes(w, h, t, c, client, s);
    assert Behind(l'.down, |w.link.down|) == ms;
    WritesKeepClient(w.pair, ms, s);
    Snoc(input, acts, Serve(Advance), c, client, s);
    Served(w, Advance, c, client, s);
    WireNeverEnds(input, acts, Advance, c, client, s);
  }

  // ----- the first capture

  /** The first keyframe of a service: planned whole, numbered one, and of typed messages. */
  lemma FirstFrame(image: Image, force: bool, c: Host.Setup, client: CS.Setup) returns (f: Frame)
    requires LinkStale.Shipped(c, client) && ValidImage(image)
    ensures MemoryOk(NO_MEMORY, c.damage, c.codecs.hash) && Host.SetupOk(c)
    ensures var (m', r) := Compare(NO_MEMORY, image, force, c.damage, c.codecs);
            && r == Ok(Some(f)) && Host.PlanFrame(f, c) == Ok(Host.Whole(f))
            && m'.previous == image && m'.generation == f.header.generation == 1
    ensures Host.SendError(Display(ConfigOf(f, image)), c) == None && Codec.Typed(Display(ConfigOf(f, image)))
    ensures Host.SendError(WholeFrame(f), c) == None ==> Codec.Typed(WholeFrame(f))
  {
    hide Host.PlanFrame, StoredHashes, FullFrame, MessageError, Codec.Typed, WireBounds.NeverEmpty;
    LinkStale.NewGeometryCompared(NO_MEMORY, image, force, c, client);
    var (m', r) := Compare(NO_MEMORY, image, force, c.damage, c.codecs);
    f := r.value.value;
    Delivery.MemoryAdvances(NO_MEMORY, image, force, c);
    FirstNumbers(image, force, c);
    Delivery.AnnouncementWithin(f, image, m');
    Delivery.AcceptedIsTyped(Display(ConfigOf(f, image)), m', c.limits);
    if Host.SendError(WholeFrame(f), c) == None {
      Delivery.AcceptedIsTyped(WholeFrame(f), m', c.limits);
    }
  }

  lemma FirstNumbers(image: Image, force: bool, c: Host.Setup)
    requires Tiled(c) && ValidImage(image)
    requires MemoryOk(NO_MEMORY, c.damage, c.codecs.hash) && Compare(NO_MEMORY, image, force, c.damage, c.codecs).1.Ok?
    ensures var m' := Compare(NO_MEMORY, image, force, c.damage, c.codecs).0; m'.generation == 1 && m'.sequence == 1
  {
    hide StoredHashes, EncodeAll;
  }

  function ToAnnounced(a: Image): seq<Act> {
    GREETINGS + [Serve(Take(a, false))] + [Serve(Advance)] + [Serve(Advance)] + [Serve(Advance)]
  }

  /** The first capture is taken, compared and announced. */
  lemma FirstAnnounced(input: CI.State, a: Image, c: Host.Setup, client: CS.Setup, s: E.Setup) returns (f: Frame)
    requires LinkStale.Shipped(c, client) && Paired(c, client, s) && S.TokenAccepted(s.token, s.host.token)
    requires Fresh(input) && ValidImage(a) && Host.Takes(a, c)
    ensures Host.SendError(WholeFrame(f), c) == None ==> Codec.Typed(WholeFrame(f))
    ensures var w := Wired.After(input, ToAnnounced(a), c, client, s);
            var config := ConfigOf(f, Host.Prepare(a, c));
            && Open(w) && w.pair.client.phase.AwaitDisplay? && w.calls == 6
            && w.link.stage == Announced(config, [WholeFrame(f)]) && w.link.job.image == a
            && w.link.down == [Display(config)] && w.link.up == [] && w.link.screen == CS.BLANK
            && w.link.phase == Greeting && w.link.input == input
            && w.link.host.memory.previous == Host.Prepare(a, c) && config.generation == 1
            && Host.SendError(Display(config), c) == None && ValidImage(Host.Prepare(a, c))
  {
    hide Wired.After, Sound, E.Step, Codec.Typed, Performed, Stepped, MemoryOk, CS.Inv, Host.Takes, Host.Prepare,
         Host.SendError;
    hide WireBounds.NeverEmpty, WireBounds.Default, Compare, Host.PlanFrame, E.CanEstablish, Fits, S.TokenAccepted;
    LinkStale.ShippedIsOk(c, client);
    PairedLimits(c, client, s);
    WireBounds.PreparedIsValid(a, c);
    ShippedEstablishes(s);
    Greeted(input, c, client, s);
    f := FirstFrame(Host.Prepare(a, c), false, c, client);
    var acts := GREETINGS;
    TakeServed(input, acts, a, c, client, s);
    acts := acts + [Serve(Take(a, false))];
    LinkStale.AdvanceContinues(Wired.After(input, acts, c, client, s).link, c, client);
    AdvanceServed(input, acts, [], c, client, s);
    acts := acts + [Serve(Advance)];
    LinkStale.AdvanceContinues(Wired.After(input, acts, c, client, s).link, c, client);
    AdvanceServed(input, acts, [], c, client, s);
    acts := acts + [Serve(Advance)];
    LinkStale.AdvanceContinues(Wired.After(input, acts, c, client, s).link, c, client);
    AdvanceServed(input, acts, [Display(ConfigOf(f, Host.Prepare(a, c)))], c, client, s);
  }

  lemma PairedLimits(c: Host.Setup, client: CS.Setup, s: E.Setup)
    requires Paired(c, client, s)
    ensures E.Proper(s) && s.host.limits == c.limits == Bounded(client.limits) && Host.SetupOk(c)
  {
  }

  lemma TakeServed(input: CI.State, acts: seq<Act>, a: Image, c: Host.Setup, client: CS.Setup, s: E.Setup)
    requires Paired(c, client, s) && Fresh(input) && Host.Takes(a, c)
    requires var w := Wired.After(input, acts, c, client, s);
             Open(w) && w.link.stage == Waiting && w.pair.host.phase.Serving? && w.calls <= U64_MAX
    ensures var w, w' := Wired.After(input, acts, c, client, s), Wired.After(input, acts + [Serve(Take(a, false))], c, client, s);
            && Open(w') && w'.link == Begin(w.link, a, false) && w'.pair == w.pair && w'.calls == w.calls
  {
    hide Wired.After, Sound, Next, E.Step, Stepped, Host.Takes;
    var w := Wired.After(input, acts, c, client, s);
    LinkStale.TakesCapture(w.link, a, c, client);
    BehindOne(w.link.down, Ping(0));
    OnePerformed(w.pair, E.ClientProceeds, [], s);
    Snoc(input, acts, Serve(Take(a, false)), c, client, s);
    Served(w, Take(a, false), c, client, s);
  }

  function ToSent(a: Image): seq<Act> {
    ToAnnounced(a) + [Serve(Advance)] + [Serve(Advance)] + [Serve(Advance)]
  }

  /** The generation is stored, the frame sent, and the capture finished. */
  lemma FirstSentWhole(input: CI.State, a: Image, c: Host.Setup, client: CS.Setup, s: E.Setup) returns (f: Frame)
    requires LinkStale.Shipped(c, client) && Paired(c, client, s) && S.TokenAccepted(s.token, s.host.token)
    requires Fresh(input) && ValidImage(a) && Host.Takes(a, c)
    ensures var w := Wired.After(input, ToSent(a), c, client, s);
            var config := ConfigOf(f, Host.Prepare(a, c));
            && Open(w) && w.pair.client.phase.AwaitDisplay? && w.calls == 7
            && w.link.stage == Waiting && w.link.serving && w.link.down == [Display(config), WholeFrame(f)]
               && w.link.up == []
            && w.link.screen == CS.BLANK && w.link.phase == Greeting
            && w.link.host.memory.previous == Host.Prepare(a, c) && config.generation == 1
            && Host.SendError(Display(config), c) == None && ValidImage(Host.Prepare(a, c))
  {
    hide Wired.After, Sound, E.Step, Codec.Typed, Performed, Stepped, MemoryOk, CS.Inv, Host.Takes, Host.Prepare,
         Host.SendError;
    hide WireBounds.NeverEmpty, WireBounds.Default, Compare, Host.PlanFrame, E.CanEstablish, Fits, S.TokenAccepted,
         ToAnnounced;
    hide AtomicSoFar;
    PairedLimits(c, client, s);
    f := FirstAnnounced(input, a, c, client, s);
    var acts := ToAnnounced(a);
    LinkStale.AdvanceContinues(Wired.After(input, acts, c, client, s).link, c, client);
    AdvanceServed(input, acts, [], c, client, s);
    acts := acts + [Serve(Advance)];
    var l := Wired.After(input, acts, c, client, s).link;
    WireRunsLink(input, acts, c, client, s);
    RunAtomic(input, MovesOf(input, acts, c, client, s), c, client);
    LinkStale.FrameAccepted(l, f, c, client);
    LinkStale.AdvanceContinues(l, c, client);
    assert [WholeFrame(f)][1..] == [];
    AdvanceServed(input, acts, [WholeFrame(f)], c, client, s);
    acts := acts + [Serve(Advance)];
    LinkStale.AdvanceContinues(Wired.After(input, acts, c, client, s).link, c, client);
    AdvanceServed(input, acts, [], c, client, s);
  }

  // ----- the client reads

  /** A read that answers nothing. */
  lemma ReadServed(input: CI.State, acts: seq<Act>, c: Host.Setup, client: CS.Setup, s: E.Setup)
    requires Paired(c, client, s) && Fresh(input)
    requires var w := Wired.After(input, acts, c, client, s);
             && Open(w) && w.link.down != [] && w.link.phase != Joining && w.calls + 1 <= U64_MAX
             && (w.pair.client.phase.AwaitDisplay? || w.pair.client.phase.Running?)
             && Next(w.link, ClientReads, c, client).live && Next(w.link, ClientReads, c, client).up == w.link.up
    ensures var w, w' := Wired.After(input, acts, c, client, s), Wired.After(input, acts + [Serve(ClientReads)], c, client, s);
            Open(w') && w'.link == Next(w.link, ClientReads, c, client) && w'.calls == w.calls + 1
  {
    hide Wired.After, Sound, Next, E.Step, Performed, Stepped;
    var w := Wired.After(input, acts, c, client, s);
    BehindOne(w.link.up, Ping(0));
    assert Calls(w.link, ClientReads, Next(w.link, ClientReads, c, client)) == [E.ClientReads(true)];
    Snoc(input, acts, Serve(ClientReads), c, client, s);
    Served(w, ClientReads, c, client, s);
    WireNeverEnds(input, acts, ClientReads, c, client, s);
  }

  lemma JoinServed(input: CI.State, acts: seq<Act>, c: Host.Setup, client: CS.Setup, s: E.Setup)
    requires Paired(c, client, s) && Fresh(input)
    requires var w := Wired.After(input, acts, c, client, s); Open(w) && w.link.phase == Joining && w.calls <= U64_MAX
    ensures var w, w' := Wired.After(input, acts, c, client, s), Wired.After(input, acts + [Serve(Joins)], c, client, s);
            && Open(w') && w'.link == w.link.(phase := Running, input := w'.link.input) && w'.calls == w.calls
  {
    hide Wired.After, Sound, Next, E.Step, Performed, Stepped, CI.Perform;
    var w := Wired.After(input, acts, c, client, s);
    LinkStale.JoinsConnects(w.link, c, client);
    Snoc(input, acts, Serve(Joins), c, client, s);
    Served(w, Joins, c, client, s);
    WireNeverEnds(input, acts, Joins, c, client, s);
  }

  /** Past its greeting, an open client runs. */
  lemma PastGreetingRuns(input: CI.State, acts: seq<Act>, c: Host.Setup, client: CS.Setup, s: E.Setup)
    requires Paired(c, client, s) && Fresh(input)
    ensures var w := Wired.After(input, acts, c, client, s);
            Open(w) && w.link.phase != Greeting ==> w.pair.client.phase.Running?
  {
    hide Wired.After, E.Joined, Fits, Sound, LinkInput.Honest, LinkInput.Unannounced, Texts;
    var h, t := RunCarried(input, acts, c, client, s);
  }

  /** A frame that will not be rejected is taken. */
  lemma FrameTaken(l: Session, f: Frame, c: Host.Setup, client: CS.Setup)
    requires Sound(l, c, client) && l.live && l.phase == Running && l.down == [WholeFrame(f)]
    requires CS.Inv(l.screen, client) && NoneRejected(ClientRuns.Run(l.screen, EventsOf(l.down), client).1)
    ensures var l' := Next(l, ClientReads, c, client);
            l'.live && l'.down == [] && l'.up == l.up && l'.stage == l.stage && l'.host == l.host && l'.phase == l.phase
  {
    hide CS.Step, MemoryOk, Host.Takes;
    assert l.down[1..] == [];
    assert EventsOf(l.down) == [CS.Apply(f)];
    RunOne(l.screen, CS.Apply(f), client);
    assert ClientRuns.Run(l.screen, EventsOf(l.down), client).1[0] == CS.Step(l.screen, CS.Apply(f), client).1;
  }

  /** From AUTH to the first image: the scripts, one capture in stages, and three moves of the client. */
  function ToShown(a: Image): seq<Act> {
    ToSent(a) + [Serve(ClientReads)] + [Serve(Joins)] + [Serve(ClientReads)]
  }

  /** The plain exchange shows the first image: with the right token and the shipped v1 limits,
      for every first capture, the client ends up running with every byte read, and follows it. */
  lemma FirstImageShown(input: CI.State, a: Image, c: Host.Setup, client: CS.Setup, s: E.Setup)
    requires LinkStale.Shipped(c, client) && Matched(c, client) && Paired(c, client, s)
    requires S.TokenAccepted(s.token, s.host.token) && Fresh(input) && ValidImage(a) && Host.Takes(a, c)
    ensures var w := Wired.After(input, ToShown(a), c, client, s);
            && Open(w) && w.pair.client.phase.Running? && w.pair.toClient == []
            && Follows(w.link.screen, Host.Prepare(a, c), c)
  {
    hide Wired.After, Sound, E.Step, Stepped, MemoryOk, CS.Inv, Host.Takes, Host.Prepare, Host.SendError, Next,
         Link.After;
    hide WireBounds.NeverEmpty, WireBounds.Default, Fits, S.TokenAccepted, ToSent, Lossless, Follows, InSync, MovesOf;
    PairedLimits(c, client, s);
    var f := FirstSentWhole(input, a, c, client, s);
    var acts := ToSent(a);
    var w := Wired.After(input, acts, c, client, s);
    var config := ConfigOf(f, Host.Prepare(a, c));
    AreaFits(Host.Prepare(a, c));
    LinkStale.DisplayApplied(w.link, config, c, client);
    assert [Display(config), WholeFrame(f)][1..] == [WholeFrame(f)];
    ReadServed(input, acts, c, client, s);
    acts := acts + [Serve(ClientReads)];
    JoinServed(input, acts, c, client, s);
    acts := acts + [Serve(Joins)];
    var l := Wired.After(input, acts, c, client, s).link;
    PastGreetingRuns(input, acts, c, client, s);
    WireRunsLink(input, acts, c, client, s);
    LinkScreen.ScreenFollows(input, MovesOf(input, acts, c, client, s), c, client);
    SoundInv(l, c, client);
    FrameTaken(l, f, c, client);
    ReadServed(input, acts, c, client, s);
    acts := acts + [Serve(ClientReads)];
    PastGreetingRuns(input, acts, c, client, s);
    BytesCarrySession(input, acts, c, client, s);
    FromAuthToPixels(input, acts, c, client, s);
  }

  lemma SoundInv(l: Session, c: Host.Setup, client: CS.Setup)
    requires Sound(l, c, client)
    ensures CS.Inv(l.screen, client)
  {
  }
}
