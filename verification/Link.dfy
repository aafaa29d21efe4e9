/** A host and its client joined by two message queues, one locked section at a time:
    captures go down in stages while input comes up. */
module Link {
  import opened Types
  import opened Messages
  import opened Validation
  import opened Damage
  import Host
  import HostInput
  import CS = ClientState
  import CI = ClientInput

  // ----- the joined session

  /** How far the send loop is with a capture. The receiving loop runs between any two stages. */
  datatype Stage =
    | Waiting
    | Taken
    | Measured
    | Planned(frame: Frame, plan: Host.Plan)
    | Announced(config: DisplayConfig, messages: seq<Message>)
    | Sending(messages: seq<Message>)

  /** The capture under way, or the last one: the image, whether the interval forced it, the
      host it was taken from, and what has been sent of it. */
  datatype Job = Job(image: Image, force: bool, from: Host.State, sent: seq<Message>)

  /** The client waits for the first DISPLAY_CONFIG, has applied it, or has called Connect. */
  datatype Phase = Greeting | Joining | Running

  /** Both ends, the messages under way in both directions, and what has happened so far: the
      geometries announced, the input sent, the input read, and the input accepted. */
  datatype Session =
    Session(host: Host.State, stage: Stage, job: Job, serving: bool, live: bool,
            screen: CS.State, input: CI.State, phase: Phase,
            down: seq<Message>, up: seq<Message>,
            announced: seq<DisplayConfig>, sent: seq<Message>, read: seq<Message>, accepted: seq<Message>)

  /** What one of the threads does next. */
  datatype Move =
    | Take(image: Image, force: bool)
    | Advance
    | HostProbes(nonce: nat)
    | HostReads(now: int)
    | ClientReads
    | Joins
    | Operates(op: CI.Operation, accepts: nat)
    | ClientProbes(nonce: nat)

  // ----- the host's threads

  function Ended(l: Session): Session { l.(live := false) }

  /** Hands a message to the peer; a refusal ends the session. */
  function Emit(l: Session, m: Message, c: Host.Setup): Session {
    if Host.SendError(m, c).Some? then Ended(l) else l.(down := l.down + [m])
  }

  /** The send loop takes a capture, and the pending keyframe request with it. */
  function Begin(l: Session, image: Image, force: bool): Session {
    l.(stage := Taken, job := Job(image, force, l.host, []), host := l.host.(keyframeRequested := false))
  }

  function ConfigOf(f: Frame, image: Image): DisplayConfig {
    DisplayConfig(f.header.generation, image.width, image.height, 0, 0, PIXEL_BGRA8888)
  }

  /** Compares and plans; neither touches anything the receiving loop uses. */
  function Prepared(l: Session, c: Host.Setup): Session
    requires Host.SetupOk(c) && MemoryOk(l.host.memory, c.damage, c.codecs.hash) && Host.Takes(l.job.image, c)
  {
    var (memory, r) := Compare(l.host.memory, Host.Prepare(l.job.image, c), l.job.force || l.job.from.keyframeRequested,
                               c.damage, c.codecs);
    var l1 := l.(host := l.host.(memory := memory));
    match r
    case Err(_) => Ended(l1)
    case Ok(None) => l1.(stage := Waiting, serving := true)
    case Ok(Some(f)) =>
      match Host.PlanFrame(f, c)
      case Err(_) => Ended(l1)
      case Ok(plan) => l1.(stage := Planned(f, plan))
  }

  /** The next locked section or send of the capture under way. */
  function Continue(l: Session, c: Host.Setup): (l': Session)
    requires Host.SetupOk(c) && MemoryOk(l.host.memory, c.damage, c.codecs.hash)
    requires l.stage != Waiting && Host.Takes(l.job.image, c)
    ensures l'.job == l.job.(sent := l'.job.sent)
  {
    match l.stage
    case Taken =>
      l.(stage := Measured, host := l.host.(nativeWidth := l.job.image.width, nativeHeight := l.job.image.height))
    case Measured => Prepared(l, c)
    case Planned(f, plan) =>
      if f.header.generation == l.host.generation then l.(stage := Sending(Host.PlanMessages(plan)))
      else
        var config := ConfigOf(f, Host.Prepare(l.job.image, c));
        if Host.SendError(Display(config), c).Some? then Ended(l)
        else l.(stage := Announced(config, Host.PlanMessages(plan)), down := l.down + [Display(config)],
                job := l.job.(sent := l.job.sent + [Display(config)]), announced := l.announced + [config])
    case Announced(config, ms) =>
      l.(stage := Sending(ms),
         host := l.host.(generation := config.generation, width := config.width, height := config.height, lastInputSeq := 0))
    case Sending(ms) =>
      if ms == [] then l.(stage := Waiting, serving := true)
      else if Host.SendError(ms[0], c).Some? then Ended(l)
      else l.(stage := Sending(ms[1..]), down := l.down + [ms[0]], job := l.job.(sent := l.job.sent + [ms[0]]))
  }

  /** The receiving loop handles the next message; a refused one ends the session. */
  function Handle(l: Session, now: int, c: Host.Setup): Session
    requires l.up != []
  {
    var m := l.up[0];
    var (h', r) := Host.HandleInput(l.host, m, now, c);
    var l1 := l.(host := h', up := l.up[1..], read := if Host.InputHeader(m).Some? then l.read + [m] else l.read);
    match r
    case Answer(nonce) => Emit(l1, Pong(nonce), c)
    case Accepted(_) => l1.(accepted := l.accepted + [m])
    case AcceptedOutside => Ended(l1)
    case Refused => Ended(l1)
    case _ => l1
  }

  // ----- the client's threads

  /** Sends an answer up; one the encoder refuses ends the session. */
  function Reply(l: Session, m: Message, client: CS.Setup): Session {
    if MessageError(m, client.limits).Some? then Ended(l) else l.(up := l.up + [m])
  }

  /** A frame or part goes to the framebuffer; it asks for a keyframe when that is what is missing. */
  function Draw(l: Session, e: CS.Event, client: CS.Setup): Session
    requires CS.Inv(l.screen, client)
  {
    var (screen, out) := CS.Step(l.screen, e, client);
    var l1 := l.(screen := screen);
    if l.phase == Greeting then Ended(l1)
    else if out == CS.Rejected(KeyframeRequired) then Reply(l1, KeyframeRequest(screen.generation), client)
    else if out.Rejected? then Ended(l1)
    else l1
  }

  /** A DISPLAY_CONFIG goes to the framebuffer and then to the input state. */
  function Configured(l: Session, config: DisplayConfig, client: CS.Setup): Session
    requires CS.Inv(l.screen, client)
  {
    var (screen, out) := CS.Step(l.screen, CS.Configure(config), client);
    if out.Rejected? then Ended(l.(screen := screen))
    else l.(screen := screen, phase := if l.phase == Greeting then Joining else l.phase,
            input := l.input.(generation := config.generation, width := config.width, height := config.height))
  }

  function Receive(l: Session, client: CS.Setup): Session
    requires l.down != [] && CS.Inv(l.screen, client)
  {
    var l1 := l.(down := l.down[1..]);
    match l.down[0]
    case Display(config) => Configured(l1, config, client)
    case WholeFrame(f) => Draw(l1, CS.Apply(f), client)
    case Part(p) => Draw(l1, CS.ApplyPart(p), client)
    case Ping(nonce) => if l.phase == Greeting then Ended(l1) else Reply(l1, Pong(nonce), client)
    case Pong(_) => if l.phase == Greeting then Ended(l1) else l1
    case _ => Ended(l1)
  }

  /** The window's operations. A pointer position is one its mapping yields: inside the display. */
  predicate FromWindow(s: CI.State, op: CI.Operation) {
    match op
    case SetFocused(_) => true
    case PressKey(_, _, _) => true
    case PressButton(_, _) => true
    case MovePointer(x, y) => CI.Active(s) ==> x < s.width && y < s.height
    case TurnWheel(_, _) => true
    case _ => false
  }

  /** Only what the encoder takes is sent; where it refuses, the send fails and `accepts` ends. */
  predicate Encodable(ms: seq<Message>, client: CS.Setup) {
    forall k :: 0 <= k < |ms| ==> MessageError(ms[k], client.limits) == None
  }

  ghost function Operated(l: Session, op: CI.Operation, accepts: nat): Session {
    var r := CI.Perform(l.input, op, accepts);
    l.(input := r.state, up := l.up + r.sent, sent := l.sent + r.sent)
  }

  // ----- every interleaving

  ghost predicate Sound(l: Session, c: Host.Setup, client: CS.Setup) {
    && Host.SetupOk(c) && MemoryOk(l.host.memory, c.damage, c.codecs.hash) && CS.Inv(l.screen, client)
    && (l.stage != Waiting || l.serving ==>
          Host.Takes(l.job.image, c) && MemoryOk(l.job.from.memory, c.damage, c.codecs.hash))
  }

  /** Whether a thread can make this move now. The receiving loops start after the first capture
      and after Connect. */
  ghost predicate Possible(l: Session, m: Move, c: Host.Setup, client: CS.Setup) {
    match m
    case Take(image, _) => l.stage == Waiting && Host.Takes(image, c)
    case Advance => l.stage != Waiting
    case HostProbes(_) => l.serving
    case HostReads(_) => l.serving && l.up != []
    case ClientReads => l.phase != Joining && l.down != []
    case Joins => l.phase == Joining
    case Operates(op, accepts) =>
      FromWindow(l.input, op) && Encodable(CI.Perform(l.input, op, accepts).sent, client)
    case ClientProbes(nonce) => l.phase == Running && MessageError(Ping(nonce), client.limits) == None
  }

  ghost function Moved(l: Session, m: Move, c: Host.Setup, client: CS.Setup): Session
    requires Sound(l, c, client) && Possible(l, m, c, client)
  {
    match m
    case Take(image, force) => Begin(l, image, force)
    case Advance => Continue(l, c)
    case HostProbes(nonce) => Emit(l, Ping(nonce), c)
    case HostReads(now) => Handle(l, now, c)
    case ClientReads => Receive(l, client)
    case Joins => l.(phase := Running, input := CI.Perform(l.input, CI.Connect, 0).state)
    case Operates(op, accepts) => Operated(l, op, accepts)
    case ClientProbes(nonce) => l.(up := l.up + [Ping(nonce)])
  }

  /** A move nobody can make leaves everything alone. */
  ghost function Next(l: Session, m: Move, c: Host.Setup, client: CS.Setup): Session
    requires Sound(l, c, client)
  {
    if l.live && Possible(l, m, c, client) then Moved(l, m, c, client) else l
  }

  /** A pinned connection: a fresh service, a reset framebuffer, and a client that is either new
      or disconnected, with the new sender in place. */
  ghost predicate Fresh(input: CI.State) {
    input.hasSender && (input.connected ==> input.generation == 0)
  }

  function Start(input: CI.State): Session {
    Session(Host.START, Waiting, Job(Image(0, 0, []), false, Host.START, []), false, true,
            CS.BLANK, input, Greeting, [], [], [], [], [], [])
  }

  ghost function After(input: CI.State, moves: seq<Move>, c: Host.Setup, client: CS.Setup): (l: Session)
    requires Host.SetupOk(c)
    ensures Sound(l, c, client)
    decreases |moves|
  {
    if moves == [] then Start(input)
    else
      var l := After(input, moves[..|moves| - 1], c, client);
      StaysSound(l, moves[|moves| - 1], c, client);
      Next(l, moves[|moves| - 1], c, client)
  }

  lemma StaysSound(l: Session, m: Move, c: Host.Setup, client: CS.Setup)
    requires Sound(l, c, client)
    ensures Sound(Next(l, m, c, client), c, client)
  {
    hide Compare, MemoryOk, CS.Inv, CS.Step, Host.Takes, Host.PlanFrame, MessageError, Host.HandleInput, CI.Perform,
         Host.Prepare;
    hide Host.SendError, Host.PlanMessages, Continue, Handle, Receive;
    if l.live && Possible(l, m, c, client) {
      match m
      case Advance => ContinueSound(l, c);
      case HostReads(now) => HandleKeeps(l, now, c);
      case ClientReads =>
        ReceiveKeeps(l, client);
        ReceiveSound(l, client);
      case _ =>
    }
  }

  lemma EndedStays(l: Session, m: Move, c: Host.Setup, client: CS.Setup)
    requires Sound(l, c, client)
    ensures !l.live ==> Next(l, m, c, client) == l
  {
    hide Sound, Possible, Moved;
  }

  /** Comparing and planning change the memory and how far the capture is. */
  lemma PreparedKeeps(l: Session, c: Host.Setup)
    requires Host.SetupOk(c) && MemoryOk(l.host.memory, c.damage, c.codecs.hash) && Host.Takes(l.job.image, c)
    ensures var l' := Prepared(l, c);
            && l' == l.(stage := l'.stage, host := l.host.(memory := l'.host.memory), serving := l'.serving, live := l'.live)
            && (l'.live ==> (l'.stage.Waiting? && l'.serving) || l'.stage.Planned?)
            && MemoryOk(l'.host.memory, c.damage, c.codecs.hash)
  {
    hide Compare, MemoryOk, Host.Takes, Host.PlanFrame, Host.Prepare;
    CompareKeepsMemory(l.host.memory, Host.Prepare(l.job.image, c), l.job.force || l.job.from.keyframeRequested,
                       c.damage, c.codecs);
  }

  lemma ContinueSound(l: Session, c: Host.Setup)
    requires Host.SetupOk(c) && MemoryOk(l.host.memory, c.damage, c.codecs.hash)
    requires l.stage != Waiting && Host.Takes(l.job.image, c)
    ensures var l' := Continue(l, c);
            && MemoryOk(l'.host.memory, c.damage, c.codecs.hash)
            && l'.job == l.job.(sent := l'.job.sent) && l'.screen == l.screen && l'.input == l.input
  {
    hide Prepared, MemoryOk, Host.Takes, Host.Prepare, Host.SendError, Host.PlanMessages;
    if l.stage == Measured {
      PreparedKeeps(l, c);
    }
  }

  /** Handling a message touches nothing a capture works on. */
  lemma HandleKeeps(l: Session, now: int, c: Host.Setup)
    requires l.up != []
    ensures var l' := Handle(l, now, c);
            && SameCapture(l'.host, l.host)
            && l'.stage == l.stage && l'.job == l.job && l'.serving == l.serving && l'.screen == l.screen
            && l'.input == l.input && l'.announced == l.announced && l'.sent == l.sent && l'.phase == l.phase
            && (l'.down == l.down
                || exists nonce :: l'.down == l.down + [Pong(nonce)] && Host.SendError(Pong(nonce), c) == None)
  {
    hide Host.HandleInput, Host.SendError;
    HostInput.AcceptedPosition(l.host, l.up[0], now, c);
    HandledDown(l, now, c);
  }

  lemma HandledDown(l: Session, now: int, c: Host.Setup)
    requires l.up != []
    ensures var r := Host.HandleInput(l.host, l.up[0], now, c).1;
            Handle(l, now, c).down == l.down
            || (r.Answer? && Handle(l, now, c).down == l.down + [Pong(r.nonce)]
                && Host.SendError(Pong(r.nonce), c) == None)
  {
    hide Host.HandleInput, Host.SendError;
  }

  /** The framebuffer event a message brings. */
  function EventOf(m: Message): Option<CS.Event> {
    match m
    case Display(config) => Some(CS.Configure(config))
    case WholeFrame(f) => Some(CS.Apply(f))
    case Part(p) => Some(CS.ApplyPart(p))
    case _ => None
  }

  /** The framebuffer after a message. */
  function Screened(s: CS.State, m: Message, client: CS.Setup): CS.State
    requires CS.Inv(s, client)
  {
    if EventOf(m).Some? then CS.Step(s, EventOf(m).value, client).0 else s
  }

  /** An answer the client may send: it asks for a keyframe or answers a probe. */
  predicate IsReply(m: Message) { m.KeyframeRequest? || m.Pong? }

  /** Equal in all but the display. */
  predicate SameBooks(a: CI.State, b: CI.State) {
    a == b.(generation := a.generation, width := a.width, height := a.height)
  }

  lemma DrawKeeps(l: Session, e: CS.Event, client: CS.Setup)
    requires CS.Inv(l.screen, client)
    ensures var l' := Draw(l, e, client);
            && l' == l.(screen := CS.Step(l.screen, e, client).0, up := l'.up, live := l'.live)
            && (l'.up == l.up
                || exists m :: l'.up == l.up + [m] && IsReply(m) && MessageError(m, client.limits) == None)
  {
    hide CS.Inv, CS.Step, MessageError;
    assert forall m: Message :: m.KeyframeRequest? ==> IsReply(m);
  }

  lemma ConfiguredKeeps(l: Session, config: DisplayConfig, client: CS.Setup)
    requires CS.Inv(l.screen, client)
    ensures var l' := Configured(l, config, client);
            && l' == l.(screen := CS.Step(l.screen, CS.Configure(config), client).0,
                        phase := l'.phase, input := l'.input, live := l'.live)
            && SameBooks(l'.input, l.input)
            && (l'.live ==>
                  && l'.phase == (if l.phase == Greeting then Joining else l.phase)
                  && l'.input.generation == config.generation
                  && l'.input.width == config.width && l'.input.height == config.height)
  {
    hide CS.Inv, CS.Step;
  }

  /** What receiving a message leaves alone, and what it does to the two screens and the answers. */
  lemma ReceiveKeeps(l: Session, client: CS.Setup)
    requires l.down != [] && CS.Inv(l.screen, client)
    ensures var l' := Receive(l, client);
            && l' == l.(down := l.down[1..], screen := Screened(l.screen, l.down[0], client), up := l'.up,
                        phase := l'.phase, input := l'.input, live := l'.live)
            && SameBooks(l'.input, l.input)
            && (l'.up == l.up
                || exists m :: l'.up == l.up + [m] && IsReply(m) && MessageError(m, client.limits) == None)
            && (if l.down[0].Display? then
                  l'.live ==>
                    && l'.phase == (if l.phase == Greeting then Joining else l.phase)
                    && l'.input.generation == l.down[0].config.generation
                    && l'.input.width == l.down[0].config.width && l'.input.height == l.down[0].config.height
                else l'.input == l.input && l'.phase == l.phase)
  {
    hide CS.Inv, CS.Step, MessageError, Draw, Configured;
    var l1 := l.(down := l.down[1..]);
    match l.down[0]
    case Display(config) => ConfiguredKeeps(l1, config, client);
    case WholeFrame(f) => DrawKeeps(l1, CS.Apply(f), client);
    case Part(p) => DrawKeeps(l1, CS.ApplyPart(p), client);
    case Ping(nonce) => assert IsReply(Pong(nonce));
    case _ =>
  }

  lemma ReceiveSound(l: Session, client: CS.Setup)
    requires l.down != [] && CS.Inv(l.screen, client)
    ensures CS.Inv(Receive(l, client).screen, client)
  {
    hide CS.Inv, CS.Step, Receive;
    ReceiveKeeps(l, client);
    if EventOf(l.down[0]).Some? {
      CS.StepKeepsInvariant(l.screen, EventOf(l.down[0]).value, client);
    }
  }

  // ----- a capture in stages is one capture

  /** Equal in all a capture works on: memory, generation, advertised and native dimensions. */
  predicate SameCapture(a: Host.State, b: Host.State) {
    a == b.(keyframeRequested := a.keyframeRequested, lastInputSeq := a.lastInputSeq,
            windowStart := a.windowStart, windowCount := a.windowCount, drops := a.drops)
  }

  /** The stages done so far and those still to come make up the capture in one piece. */
  ghost predicate Staged(l: Session, c: Host.Setup)
    requires Host.SetupOk(c) && MemoryOk(l.job.from.memory, c.damage, c.codecs.hash) && Host.Takes(l.job.image, c)
  {
    var (h, sent, err) := Host.SendCapture(l.job.from, l.job.image, l.job.force, c);
    var measured := l.job.from.(nativeWidth := l.job.image.width, nativeHeight := l.job.image.height);
    match l.stage
    case Waiting => SameCapture(l.host, h) && sent == l.job.sent && err == None
    case Taken => SameCapture(l.host, l.job.from) && l.job.sent == []
    case Measured => SameCapture(l.host, measured) && l.job.sent == []
    case Planned(f, plan) =>
      var image := Host.Prepare(l.job.image, c);
      var compared := measured.(memory := l.host.memory, keyframeRequested := false);
      SameCapture(l.host, compared) && l.job.sent == []
      && (h, sent, err) == Host.Announce(compared, f, plan, image.width, image.height, c)
    case Announced(config, ms) =>
      && SameCapture(l.host.(generation := config.generation, width := config.width, height := config.height), h)
      && sent == l.job.sent + Host.SendAll(ms, c).0 && err == Host.SendAll(ms, c).1
    case Sending(ms) =>
      && SameCapture(l.host, h)
      && sent == l.job.sent + Host.SendAll(ms, c).0 && err == Host.SendAll(ms, c).1
  }

  ghost predicate AtomicSoFar(l: Session, c: Host.Setup)
    requires Host.SetupOk(c)
    requires l.stage != Waiting || l.serving ==>
               Host.Takes(l.job.image, c) && MemoryOk(l.job.from.memory, c.damage, c.codecs.hash)
  {
    l.live && (l.stage != Waiting || l.serving) ==> Staged(l, c)
  }

  lemma PreparedStaged(l: Session, c: Host.Setup)
    requires Host.SetupOk(c) && MemoryOk(l.host.memory, c.damage, c.codecs.hash) && Host.Takes(l.job.image, c)
    requires MemoryOk(l.job.from.memory, c.damage, c.codecs.hash) && l.stage == Measured && Staged(l, c)
    ensures AtomicSoFar(Prepared(l, c), c)
  {
    hide Compare, MemoryOk, Host.Takes, Host.PlanFrame, Host.Prepare, Host.SendAll, Host.Announce;
  }

  lemma PlannedStaged(l: Session, c: Host.Setup)
    requires Host.SetupOk(c) && MemoryOk(l.host.memory, c.damage, c.codecs.hash) && Host.Takes(l.job.image, c)
    requires MemoryOk(l.job.from.memory, c.damage, c.codecs.hash) && l.stage.Planned? && Staged(l, c)
    ensures AtomicSoFar(Continue(l, c), c)
  {
    hide Host.SendCapture, MemoryOk, Host.Takes, Host.Prepare, Host.SendAll, Host.SendError, Host.PlanMessages;
    var ms := Host.PlanMessages(l.stage.plan);
    var (rest, _) := Host.SendAll(ms, c);
    assert [] + rest == rest;
  }

  lemma SendingStaged(l: Session, c: Host.Setup)
    requires Host.SetupOk(c) && MemoryOk(l.host.memory, c.damage, c.codecs.hash) && Host.Takes(l.job.image, c)
    requires MemoryOk(l.job.from.memory, c.damage, c.codecs.hash) && l.stage.Sending? && Staged(l, c)
    ensures AtomicSoFar(Continue(l, c), c)
  {
    hide Host.SendCapture, MemoryOk, Host.Takes, Host.SendError;
    var ms := l.stage.messages;
    if ms == [] {
      assert l.job.sent + [] == l.job.sent;
    } else {
      var rest := Host.SendAll(ms[1..], c).0;
      assert l.job.sent + ([ms[0]] + rest) == l.job.sent + [ms[0]] + rest;
    }
  }

  lemma StepAtomic(l: Session, m: Move, c: Host.Setup, client: CS.Setup)
    requires Sound(l, c, client) && AtomicSoFar(l, c)
    ensures Sound(Next(l, m, c, client), c, client) && AtomicSoFar(Next(l, m, c, client), c)
  {
    hide Host.SendCapture, MemoryOk, CS.Inv, Host.Takes, Host.Announce, Host.SendAll, Host.Prepare, Handle, Receive,
         Operated;
    hide Prepared, Host.SendError, CI.Perform, MessageError, Encodable, Host.PlanMessages;
    StaysSound(l, m, c, client);
    if l.live && Possible(l, m, c, client) {
      match m
      case Advance =>
        match l.stage {
          case Measured => PreparedStaged(l, c);
          case Planned(_, _) => PlannedStaged(l, c);
          case Sending(_) => SendingStaged(l, c);
          case _ =>
        }
      case HostReads(now) => HandleKeeps(l, now, c);
      case ClientReads => ReceiveKeeps(l, client);
      case Operates(op, accepts) => OperatedKeeps(l, op, accepts);
      case _ =>
    }
  }

  lemma OperatedKeeps(l: Session, op: CI.Operation, accepts: nat)
    ensures var l' := Operated(l, op, accepts);
            l' == l.(input := l'.input, up := l'.up, sent := l'.sent)
  {
    hide CI.Perform;
  }

  lemma {:induction false} RunAtomic(input: CI.State, moves: seq<Move>, c: Host.Setup, client: CS.Setup)
    requires Host.SetupOk(c)
    ensures AtomicSoFar(After(input, moves, c, client), c)
    decreases |moves|
  {
    hide Sound, AtomicSoFar, Next;
    if moves == [] {
      StartAtomic(input, c);
    } else {
      var before := moves[..|moves| - 1];
      RunAtomic(input, before, c, client);
      StepAtomic(After(input, before, c, client), moves[|moves| - 1], c, client);
    }
  }

  lemma StartAtomic(input: CI.State, c: Host.Setup)
    requires Host.SetupOk(c)
    ensures AtomicSoFar(Start(input), c)
  {
  }

  /** However received messages, probes and the client's moves fall between its stages, a
      finished capture has sent exactly what it would have sent in one piece, without an error,
      and left the host the same in everything a capture works on. */
  lemma CaptureIsAtomic(input: CI.State, moves: seq<Move>, c: Host.Setup, client: CS.Setup)
    requires Host.SetupOk(c)
    ensures var l := After(input, moves, c, client);
            l.live && l.serving && l.stage == Waiting ==>
              && Host.Takes(l.job.image, c) && MemoryOk(l.job.from.memory, c.damage, c.codecs.hash)
              && var (h, sent, err) := Host.SendCapture(l.job.from, l.job.image, l.job.force, c);
                 SameCapture(l.host, h) && l.job.sent == sent && err == None
  {
    hide Host.SendCapture, MemoryOk, Host.Takes, After;
    RunAtomic(input, moves, c, client);
  }
}
