/** When exactly an honest client's input is refused by its host. */
module LinkInput {
  import opened Types
  import opened Messages
  import opened Validation
  import opened Tiling
  import opened Damage
  import Host
  import HostInput
  import CS = ClientState
  import CI = ClientInput
  import opened Link

  // ----- what the window's operations send

  /** Input events of this display; a move lies inside it. */
  ghost predicate Stamped(ms: seq<Message>, s: CI.State) {
    forall k :: 0 <= k < |ms| ==> StampedOne(ms[k], s)
  }

  predicate StampedOne(m: Message, s: CI.State) {
    && Host.InputHeader(m).Some? && Host.InputHeader(m).value.0 == s.generation
    && (m.PointerMove? ==> m.x < s.width && m.y < s.height)
  }

  predicate SameDisplay(a: CI.State, b: CI.State) {
    && a.generation == b.generation && a.width == b.width && a.height == b.height
    && (a.connected ==> b.connected)
  }

  lemma {:induction false} ReleaseKeysStamped(s: CI.State, accepts: nat)
    ensures var r := CI.ReleaseKeys(s, accepts); Stamped(r.sent, s) && SameDisplay(r.state, s)
    decreases s.keys.Keys
  {
    hide MessageError;
    if s.keys != map[] {
      var r := CI.ReleaseKey(s, accepts);
      if !r.failed {
        ReleaseKeysStamped(r.state, r.left);
      }
    }
  }

  lemma {:induction false} ReleaseButtonsStamped(s: CI.State, accepts: nat)
    ensures var r := CI.ReleaseButtons(s, accepts); Stamped(r.sent, s) && SameDisplay(r.state, s)
    decreases s.buttons
  {
    hide MessageError;
    if s.buttons != {} {
      var r := CI.ReleaseButton(s, accepts);
      if !r.failed {
        ReleaseButtonsStamped(r.state, r.left);
      }
    }
  }

  lemma WindowSends(s: CI.State, op: CI.Operation, accepts: nat)
    requires FromWindow(s, op)
    ensures var r := CI.Perform(s, op, accepts); Stamped(r.sent, s) && SameDisplay(r.state, s)
  {
    hide MessageError, CI.ReleaseKeys, CI.ReleaseButtons;
    ReleaseKeysStamped(s, accepts);
    var r := CI.ReleaseKeys(s, accepts);
    ReleaseButtonsStamped(r.state, r.left);
  }

  // ----- which geometries are about

  predicate Shows(config: DisplayConfig, generation: nat, width: nat, height: nat) {
    config.generation == generation && config.width == width && config.height == height
  }

  /** The geometries the host has stored: all announced ones, but for one it has only just sent. */
  function Settled(stage: Stage, announced: seq<DisplayConfig>): seq<DisplayConfig> {
    if stage.Announced? && announced != [] then announced[..|announced| - 1] else announced
  }

  ghost predicate Increasing(cs: seq<DisplayConfig>) {
    && (forall k :: 0 <= k < |cs| ==> 0 < cs[k].generation)
    && (forall i, j :: 0 <= i < j < |cs| ==> cs[i].generation < cs[j].generation)
  }

  /** The host advertises the last geometry it stored. */
  ghost predicate HostShows(h: Host.State, stage: Stage, serving: bool, announced: seq<DisplayConfig>) {
    && Increasing(announced) && h.generation <= h.memory.generation
    && (match stage
        case Planned(f, _) => 0 < f.header.generation == h.memory.generation
        case Announced(config, _) =>
          && announced != [] && announced[|announced| - 1] == config
          && config.generation <= h.memory.generation
        case Sending(_) => 0 < h.generation
        case _ => h.memory.previous.pixels != [] ==> 0 < h.generation)
    && (serving ==> 0 < h.generation)
    && var settled := Settled(stage, announced);
       if settled == [] then h.generation == 0
       else Shows(settled[|settled| - 1], h.generation, h.width, h.height)
  }

  ghost predicate ShownIn(cs: seq<DisplayConfig>, s: CI.State) {
    exists k :: 0 <= k < |cs| && Shows(cs[k], s.generation, s.width, s.height)
  }

  /** The client knows only announced geometries; before the first it has no input to send. */
  ghost predicate ClientShows(s: CI.State, phase: Phase, announced: seq<DisplayConfig>) {
    if phase == Greeting then s.connected ==> s.generation == 0 else ShownIn(announced, s)
  }

  function Pending(stage: Stage): seq<Message> {
    match stage
    case Announced(_, ms) => ms
    case Sending(ms) => ms
    case _ => []
  }

  /** Every DISPLAY_CONFIG on its way down was announced, and the rest of a capture is pixels. */
  ghost predicate Falling(down: seq<Message>, stage: Stage, announced: seq<DisplayConfig>) {
    && (forall k :: 0 <= k < |down| && down[k].Display? ==> down[k].config in announced)
    && (forall k :: 0 <= k < |Pending(stage)| ==> Pending(stage)[k].WholeFrame? || Pending(stage)[k].Part?)
  }

  // ----- the input on its way up

  predicate IsInput(m: Message) { Host.InputHeader(m).Some? }

  /** An event of this geometry. */
  predicate KnownAt(m: Message, config: DisplayConfig) {
    && IsInput(m) && config.generation == Host.InputHeader(m).value.0
    && (m.PointerMove? ==> m.x < config.width && m.y < config.height)
  }

  ghost predicate Known(m: Message, cs: seq<DisplayConfig>) {
    exists k :: 0 <= k < |cs| && KnownAt(m, cs[k])
  }

  /** One message on its way up, where the host has seen input up to `last` and the client has
      counted to `next`. */
  ghost predicate Sent(m: Message, last: nat, next: nat, announced: seq<DisplayConfig>, limits: Limits) {
    if IsInput(m) then
      Known(m, announced) && MessageError(m, limits) == None && last < CI.SequenceOf(m) <= next
    else m.KeyframeRequest? || m.Ping? || m.Pong?
  }

  ghost predicate Climbing(up: seq<Message>, last: nat, next: nat, announced: seq<DisplayConfig>, limits: Limits) {
    && last <= next
    && (forall k :: 0 <= k < |up| ==> Sent(up[k], last, next, announced, limits))
    && (forall i, j :: 0 <= i < j < |up| && IsInput(up[i]) && IsInput(up[j]) ==>
          CI.SequenceOf(up[i]) < CI.SequenceOf(up[j]))
  }

  ghost predicate Honest(l: Session, client: CS.Setup) {
    && HostShows(l.host, l.stage, l.serving, l.announced)
    && ClientShows(l.input, l.phase, l.announced)
    && Falling(l.down, l.stage, l.announced)
    && Climbing(l.up, l.host.lastInputSeq, l.input.sequence, l.announced, client.limits)
  }

  lemma KnownGrows(m: Message, cs: seq<DisplayConfig>, config: DisplayConfig)
    requires Known(m, cs)
    ensures Known(m, cs + [config])
  {
    var k :| 0 <= k < |cs| && KnownAt(m, cs[k]);
    assert KnownAt(m, (cs + [config])[k]);
  }

  lemma ShownGrows(s: CI.State, cs: seq<DisplayConfig>, config: DisplayConfig)
    requires ShownIn(cs, s)
    ensures ShownIn(cs + [config], s)
  {
    var k :| 0 <= k < |cs| && Shows(cs[k], s.generation, s.width, s.height);
    assert Shows((cs + [config])[k], s.generation, s.width, s.height);
  }

  lemma ClimbingGrows(up: seq<Message>, last: nat, next: nat, cs: seq<DisplayConfig>, config: DisplayConfig,
                      limits: Limits)
    requires Climbing(up, last, next, cs, limits)
    ensures Climbing(up, last, next, cs + [config], limits)
  {
    hide Known, MessageError, CI.SequenceOf;
    forall k | 0 <= k < |up| && IsInput(up[k])
      ensures Known(up[k], cs + [config])
    {
      assert Sent(up[k], last, next, cs, limits);
      KnownGrows(up[k], cs, config);
    }
  }

  lemma ClimbingRestarts(up: seq<Message>, last: nat, next: nat, cs: seq<DisplayConfig>, limits: Limits)
    requires Climbing(up, last, next, cs, limits)
    ensures Climbing(up, 0, next, cs, limits)
  {
    hide Known, MessageError, CI.SequenceOf;
    forall k | 0 <= k < |up|
      ensures Sent(up[k], 0, next, cs, limits)
    {
      assert Sent(up[k], last, next, cs, limits);
    }
  }

  lemma ClimbingAnswer(up: seq<Message>, m: Message, last: nat, next: nat, cs: seq<DisplayConfig>, limits: Limits)
    requires Climbing(up, last, next, cs, limits) && (m.KeyframeRequest? || m.Ping? || m.Pong?)
    ensures Climbing(up + [m], last, next, cs, limits)
  {
    hide Known, MessageError, CI.SequenceOf;
    assert !IsInput(m);
    assert Sent(m, last, next, cs, limits);
  }

  /** The host reads the first message and has then seen input up to it, or as far as before. */
  lemma ClimbingRead(up: seq<Message>, last: nat, last': nat, next: nat, cs: seq<DisplayConfig>, limits: Limits)
    requires Climbing(up, last, next, cs, limits) && up != []
    requires last' == last || (IsInput(up[0]) && last' == CI.SequenceOf(up[0]))
    ensures Climbing(up[1..], last', next, cs, limits)
  {
    hide Known, MessageError, CI.SequenceOf;
    var rest := up[1..];
    assert Sent(up[0], last, next, cs, limits);
    forall k | 0 <= k < |rest|
      ensures Sent(rest[k], last', next, cs, limits)
    {
      assert Sent(up[k + 1], last, next, cs, limits);
    }
    forall i, j | 0 <= i < j < |rest| && IsInput(rest[i]) && IsInput(rest[j])
      ensures CI.SequenceOf(rest[i]) < CI.SequenceOf(rest[j])
    {
      assert IsInput(up[i + 1]) && IsInput(up[j + 1]);
    }
  }

  /** What the window sends climbs behind what is already under way. */
  lemma ClimbingMore(up: seq<Message>, more: seq<Message>, last: nat, next: nat, s: CI.State,
                     cs: seq<DisplayConfig>, limits: Limits)
    requires Climbing(up, last, next, cs, limits) && next == s.sequence
    requires Stamped(more, s) && CI.Numbered(more, s.sequence) && (more != [] ==> ShownIn(cs, s))
    requires forall k :: 0 <= k < |more| ==> MessageError(more[k], limits) == None
    ensures Climbing(up + more, last, next + |more|, cs, limits)
  {
    hide MessageError, CI.SequenceOf, Known;
    var all := up + more;
    forall k | 0 <= k < |all|
      ensures Sent(all[k], last, next + |more|, cs, limits)
    {
      if k < |up| {
        assert Sent(up[k], last, next, cs, limits);
      } else {
        StampedIsKnown(more[k - |up|], s, cs);
      }
    }
    forall i, j | 0 <= i < j < |all| && IsInput(all[i]) && IsInput(all[j])
      ensures CI.SequenceOf(all[i]) < CI.SequenceOf(all[j])
    {
      if j < |up| {
        assert IsInput(up[i]) && IsInput(up[j]);
      } else if i < |up| {
        assert Sent(up[i], last, next, cs, limits);
        assert CI.SequenceOf(more[j - |up|]) == next + 1 + (j - |up|);
      } else {
        assert CI.SequenceOf(more[i - |up|]) == next + 1 + (i - |up|);
        assert CI.SequenceOf(more[j - |up|]) == next + 1 + (j - |up|);
      }
    }
  }

  lemma StampedIsKnown(m: Message, s: CI.State, cs: seq<DisplayConfig>)
    requires StampedOne(m, s) && ShownIn(cs, s)
    ensures Known(m, cs) && IsInput(m)
  {
    var k :| 0 <= k < |cs| && Shows(cs[k], s.generation, s.width, s.height);
    assert KnownAt(m, cs[k]);
  }

  // ----- every move keeps them: the host's

  /** The first capture is never taken as unchanged, and every frame has a generation. */
  lemma FirstIsSent(m: Memory, image: Image, force: bool, c: Host.Setup)
    requires Host.SetupOk(c) && MemoryOk(m, c.damage, c.codecs.hash)
    ensures var (m', r) := Compare(m, image, force, c.damage, c.codecs);
            && (r == Ok(None) ==> m.previous.pixels != [] && m' == m)
            && (r.Ok? && r.value.Some? ==> 0 < m'.generation)
  {
    hide Dirty, DamageRects, Bands, BandAll, EncodeAll, StoredHashes, TooDirty;
  }

  lemma PreparedShows(l: Session, c: Host.Setup)
    requires Host.SetupOk(c) && MemoryOk(l.host.memory, c.damage, c.codecs.hash) && Host.Takes(l.job.image, c)
    requires l.stage == Measured && HostShows(l.host, l.stage, l.serving, l.announced)
    ensures var l' := Prepared(l, c);
            l'.live ==> HostShows(l'.host, l'.stage, l'.serving, l'.announced)
  {
    hide Compare, MemoryOk, Host.Takes, Host.PlanFrame, Host.Prepare, Increasing;
    var image, force := Host.Prepare(l.job.image, c), l.job.force || l.job.from.keyframeRequested;
    HostInput.ComparedGeneration(l.host.memory, image, force, c);
    FirstIsSent(l.host.memory, image, force, c);
    var (m', r) := Compare(l.host.memory, image, force, c.damage, c.codecs);
    var l' := Prepared(l, c);
    if l'.live {
      assert Settled(l'.stage, l'.announced) == Settled(l.stage, l.announced);
      if r.value.Some? {
        assert l'.stage.frame == r.value.value && l'.host.memory == m';
      }
    }
  }

  /** A geometry is announced, then stored; a frame of the stored one is sent at once. */
  lemma AnnouncedShows(h: Host.State, f: Frame, plan: Host.Plan, config: DisplayConfig, ms: seq<Message>, serving: bool,
                       announced: seq<DisplayConfig>)
    requires HostShows(h, Planned(f, plan), serving, announced) && config.generation == f.header.generation
    ensures h.generation != config.generation ==> HostShows(h, Announced(config, ms), serving, announced + [config])
    ensures h.generation == config.generation ==> HostShows(h, Sending(ms), serving, announced)
  {
    assert Settled(Announced(config, ms), announced + [config]) == announced;
  }

  lemma StoredShows(h: Host.State, config: DisplayConfig, ms: seq<Message>, serving: bool,
                    announced: seq<DisplayConfig>)
    requires HostShows(h, Announced(config, ms), serving, announced)
    ensures var h' := h.(generation := config.generation, width := config.width, height := config.height, lastInputSeq := 0);
            HostShows(h', Sending(ms), serving, announced)
  {
  }

  lemma ContinueShows(l: Session, c: Host.Setup)
    requires Host.SetupOk(c) && MemoryOk(l.host.memory, c.damage, c.codecs.hash) && Host.Takes(l.job.image, c)
    requires l.stage != Waiting && HostShows(l.host, l.stage, l.serving, l.announced)
    ensures var l' := Continue(l, c);
            l'.live ==> HostShows(l'.host, l'.stage, l'.serving, l'.announced)
  {
    hide HostShows, MemoryOk, Host.Takes, Host.Prepare, Prepared, Host.SendError, Host.PlanMessages;
    match l.stage
    case Measured => PreparedShows(l, c);
    case Planned(f, plan) =>
      AnnouncedShows(l.host, f, plan, ConfigOf(f, Host.Prepare(l.job.image, c)), Host.PlanMessages(plan), l.serving, l.announced);
    case Announced(config, ms) => StoredShows(l.host, config, ms, l.serving, l.announced);
    case _ => QuietShows(l, c);
  }

  /** The stages that neither announce nor compare. */
  lemma QuietShows(l: Session, c: Host.Setup)
    requires Host.SetupOk(c) && MemoryOk(l.host.memory, c.damage, c.codecs.hash) && Host.Takes(l.job.image, c)
    requires (l.stage.Taken? || l.stage.Sending?) && HostShows(l.host, l.stage, l.serving, l.announced)
    ensures var l' := Continue(l, c);
            l'.live ==> HostShows(l'.host, l'.stage, l'.serving, l'.announced)
  {
    hide MemoryOk, Host.Takes, Host.SendError, Increasing;
  }

  lemma PlanIsPixels(plan: Host.Plan)
    ensures forall k :: 0 <= k < |Host.PlanMessages(plan)| ==>
              Host.PlanMessages(plan)[k].WholeFrame? || Host.PlanMessages(plan)[k].Part?
  {
  }

  lemma ContinueFalls(l: Session, c: Host.Setup)
    requires Host.SetupOk(c) && MemoryOk(l.host.memory, c.damage, c.codecs.hash) && Host.Takes(l.job.image, c)
    requires l.stage != Waiting && Falling(l.down, l.stage, l.announced)
    ensures var l' := Continue(l, c);
            && (l'.live ==> Falling(l'.down, l'.stage, l'.announced))
            && (l'.announced == l.announced || exists config :: l'.announced == l.announced + [config])
            && (l'.host.lastInputSeq == l.host.lastInputSeq || l'.host.lastInputSeq == 0)
            && l'.input == l.input && l'.phase == l.phase && l'.up == l.up
  {
    hide Prepared, MemoryOk, Host.Takes, Host.Prepare, Host.SendError, Host.PlanMessages, Falling;
    match l.stage
    case Measured =>
      PreparedKeeps(l, c);
      if Prepared(l, c).live {
        FallsOn(l.down, l.stage, Prepared(l, c).stage, l.announced);
      }
    case Planned(f, plan) =>
      PlanIsPixels(plan);
      AnnouncedFalls(l.down, l.stage, ConfigOf(f, Host.Prepare(l.job.image, c)), Host.PlanMessages(plan), l.announced);
    case Announced(_, ms) => FallsOn(l.down, l.stage, Sending(ms), l.announced);
    case Sending(ms) => SentFalls(l.down, ms, l.announced);
    case Taken => FallsOn(l.down, l.stage, Measured, l.announced);
  }

  lemma FallsOn(down: seq<Message>, stage: Stage, stage': Stage, announced: seq<DisplayConfig>)
    requires Falling(down, stage, announced) && (Pending(stage') == [] || Pending(stage') == Pending(stage))
    ensures Falling(down, stage', announced)
  {
  }

  lemma AnnouncedFalls(down: seq<Message>, stage: Stage, config: DisplayConfig, ms: seq<Message>,
                       announced: seq<DisplayConfig>)
    requires Falling(down, stage, announced) && forall k :: 0 <= k < |ms| ==> ms[k].WholeFrame? || ms[k].Part?
    ensures Falling(down + [Display(config)], Announced(config, ms), announced + [config])
    ensures Falling(down, Sending(ms), announced)
  {
  }

  lemma SentFalls(down: seq<Message>, ms: seq<Message>, announced: seq<DisplayConfig>)
    requires Falling(down, Sending(ms), announced)
    ensures Falling(down, Waiting, announced)
    ensures ms != [] ==> Falling(down + [ms[0]], Sending(ms[1..]), announced)
  {
    assert ms != [] ==> Pending(Sending(ms))[0].WholeFrame? || Pending(Sending(ms))[0].Part?;
    assert forall k :: 0 <= k < |ms| - 1 ==> ms[1..][k] == Pending(Sending(ms))[k + 1];
  }

  lemma AdvanceHonest(l: Session, c: Host.Setup, client: CS.Setup)
    requires Host.SetupOk(c) && MemoryOk(l.host.memory, c.damage, c.codecs.hash) && Host.Takes(l.job.image, c)
    requires l.stage != Waiting && Honest(l, client)
    ensures Continue(l, c).live ==> Honest(Continue(l, c), client)
  {
    hide Continue, HostShows, Falling, Climbing, ShownIn, MemoryOk, Host.Takes;
    ContinueShows(l, c);
    ContinueFalls(l, c);
    var l' := Continue(l, c);
    ClimbingRestarts(l.up, l.host.lastInputSeq, l.input.sequence, l.announced, client.limits);
    if l'.announced != l.announced {
      var config :| l'.announced == l.announced + [config];
      ClimbingGrows(l.up, l'.host.lastInputSeq, l.input.sequence, l.announced, config, client.limits);
      if ShownIn(l.announced, l.input) {
        ShownGrows(l.input, l.announced, config);
      }
    }
  }

  lemma HandleHonest(l: Session, now: int, c: Host.Setup, client: CS.Setup)
    requires l.up != [] && Honest(l, client)
    ensures Honest(Handle(l, now, c), client)
  {
    hide Handle, Host.HandleInput, ShownIn, Climbing, Increasing;
    HandleKeeps(l, now, c);
    HandleReads(l, now, c);
    ClimbingRead(l.up, l.host.lastInputSeq, Handle(l, now, c).host.lastInputSeq, l.input.sequence, l.announced, client.limits);
  }

  lemma HandleReads(l: Session, now: int, c: Host.Setup)
    requires l.up != []
    ensures var l' := Handle(l, now, c);
            && l'.up == l.up[1..]
            && (l'.host.lastInputSeq == l.host.lastInputSeq
                || (IsInput(l.up[0]) && l'.host.lastInputSeq == CI.SequenceOf(l.up[0])))
  {
    hide MessageError, Host.SendError;
  }

  // ----- the client's

  lemma ReceiveHonest(l: Session, client: CS.Setup)
    requires l.down != [] && CS.Inv(l.screen, client) && Honest(l, client) && l.phase != Joining
    ensures Receive(l, client).live ==> Honest(Receive(l, client), client)
  {
    hide CS.Inv, HostShows, Climbing, Receive, Screened;
    var l' := Receive(l, client);
    ReceiveKeeps(l, client);
    if l'.up != l.up {
      var m :| l'.up == l.up + [m] && IsReply(m);
      ClimbingAnswer(l.up, m, l.host.lastInputSeq, l.input.sequence, l.announced, client.limits);
    }
    if l.down[0].Display? {
      var k :| 0 <= k < |l.announced| && l.announced[k] == l.down[0].config;
      assert l'.live ==> Shows(l.announced[k], l'.input.generation, l'.input.width, l'.input.height);
    }
  }

  lemma OperatesHonest(l: Session, op: CI.Operation, accepts: nat, client: CS.Setup)
    requires FromWindow(l.input, op) && Encodable(CI.Perform(l.input, op, accepts).sent, client) && Honest(l, client)
    ensures Honest(Operated(l, op, accepts), client)
  {
    hide CI.Perform, MessageError, HostShows, Climbing, Falling, CI.Numbered, Stamped;
    WindowSends(l.input, op, accepts);
    CI.PerformNumbers(l.input, op, accepts);
    var r := CI.Perform(l.input, op, accepts);
    if l.phase == Greeting {
      SilentBeforeDisplay(l.input, op, accepts, client);
    }
    ClimbingMore(l.up, r.sent, l.host.lastInputSeq, l.input.sequence, l.input, l.announced, client.limits);
    if l.phase != Greeting {
      SameShown(r.state, l.input, l.announced);
    }
  }

  lemma SameShown(a: CI.State, b: CI.State, cs: seq<DisplayConfig>)
    requires SameDisplay(a, b) && ShownIn(cs, b)
    ensures ShownIn(cs, a)
  {
  }

  /** Without a display nothing the encoder takes can come from the window. */
  lemma SilentBeforeDisplay(s: CI.State, op: CI.Operation, accepts: nat, client: CS.Setup)
    requires FromWindow(s, op) && Encodable(CI.Perform(s, op, accepts).sent, client)
    requires s.connected ==> s.generation == 0
    ensures CI.Perform(s, op, accepts).sent == []
  {
    hide CI.Perform, MessageError;
    var sent := CI.Perform(s, op, accepts).sent;
    if !s.connected {
      CI.DisconnectedIsQuiet(s, op, accepts);
    } else if sent != [] {
      WindowSends(s, op, accepts);
      assert StampedOne(sent[0], s) && MessageError(sent[0], client.limits) == None;
      HostInput.AcceptedGeneration(sent[0], client.limits);
    }
  }

  lemma StepHonest(l: Session, m: Move, c: Host.Setup, client: CS.Setup)
    requires Sound(l, c, client) && l.live && Honest(l, client)
    ensures Next(l, m, c, client).live ==> Honest(Next(l, m, c, client), client)
  {
    hide MemoryOk, CS.Inv, Host.Takes, Handle, Receive, Operated, Continue, CI.Perform, MessageError, Encodable,
         Host.SendError;
    hide Increasing, Climbing, ShownIn;
    if Possible(l, m, c, client) {
      match m
      case Take(_, _) =>
      case Advance => AdvanceHonest(l, c, client);
      case HostProbes(_) =>
      case HostReads(now) => HandleHonest(l, now, c, client);
      case ClientReads => ReceiveHonest(l, client);
      case Joins => ConnectKeeps(l.input, l.announced);
      case Operates(op, accepts) => OperatesHonest(l, op, accepts, client);
      case ClientProbes(nonce) =>
        ClimbingAnswer(l.up, Ping(nonce), l.host.lastInputSeq, l.input.sequence, l.announced, client.limits);
    }
  }

  lemma ConnectKeeps(s: CI.State, cs: seq<DisplayConfig>)
    ensures var s' := CI.Perform(s, CI.Connect, 0).state;
            s'.sequence == s.sequence && (ShownIn(cs, s) ==> ShownIn(cs, s'))
  {
  }

  lemma {:induction false} RunHonest(input: CI.State, moves: seq<Move>, c: Host.Setup, client: CS.Setup)
    requires Host.SetupOk(c) && Fresh(input)
    ensures After(input, moves, c, client).live ==> Honest(After(input, moves, c, client), client)
    decreases |moves|
  {
    hide Sound, Honest, Next;
    if moves == [] {
      StartHonest(input, client);
    } else {
      var before := moves[..|moves| - 1];
      RunHonest(input, before, c, client);
      var l := After(input, before, c, client);
      EndedStays(l, moves[|moves| - 1], c, client);
      if l.live {
        StepHonest(l, moves[|moves| - 1], c, client);
      }
    }
  }

  lemma StartHonest(input: CI.State, client: CS.Setup)
    requires Fresh(input)
    ensures Honest(Start(input), client)
  {
  }

  // ----- before the first announcement

  /** Until a geometry is announced nothing is under way in either direction. */
  ghost predicate Unannounced(l: Session) {
    l.announced == [] ==> l.down == [] && l.up == []
  }

  lemma NothingAnnounced(l: Session, client: CS.Setup)
    requires Honest(l, client) && l.announced == []
    ensures !l.serving && l.phase == Greeting && !l.stage.Sending? && !l.stage.Announced?
    ensures l.input.connected ==> l.input.generation == 0
  {
    hide Climbing;
  }

  lemma StepUnannounced(l: Session, m: Move, c: Host.Setup, client: CS.Setup)
    requires Sound(l, c, client) && l.live && Honest(l, client) && Unannounced(l)
    ensures Next(l, m, c, client).live ==> Unannounced(Next(l, m, c, client))
  {
    hide MemoryOk, CS.Inv, Host.Takes, Handle, Receive, CI.Perform, MessageError, Encodable, Host.SendError;
    hide Honest, Continue, FromWindow;
    if Possible(l, m, c, client) {
      if l.announced == [] {
        NothingAnnounced(l, client);
      }
      match m
      case Advance => ContinueUnannounced(l, c);
      case HostReads(now) => HandleKeeps(l, now, c);
      case ClientReads => ReceiveKeeps(l, client);
      case Operates(op, accepts) =>
        if l.announced == [] {
          SilentBeforeDisplay(l.input, op, accepts, client);
        }
      case _ =>
    }
  }

  lemma ContinueUnannounced(l: Session, c: Host.Setup)
    requires Host.SetupOk(c) && MemoryOk(l.host.memory, c.damage, c.codecs.hash) && Host.Takes(l.job.image, c)
    requires l.stage != Waiting && Unannounced(l) && (l.announced == [] ==> !l.stage.Sending?)
    ensures Continue(l, c).live ==> Unannounced(Continue(l, c))
  {
    hide Prepared, MemoryOk, Host.Takes, Host.Prepare, Host.SendError, Host.PlanMessages;
    if l.stage == Measured {
      PreparedKeeps(l, c);
    }
  }

  lemma {:induction false} RunUnannounced(input: CI.State, moves: seq<Move>, c: Host.Setup, client: CS.Setup)
    requires Host.SetupOk(c) && Fresh(input)
    ensures After(input, moves, c, client).live ==> Unannounced(After(input, moves, c, client))
    decreases |moves|
  {
    hide Sound, Honest, Next, Unannounced;
    if moves == [] {
      StartUnannounced(input);
    } else {
      var before := moves[..|moves| - 1];
      RunUnannounced(input, before, c, client);
      RunHonest(input, before, c, client);
      var l := After(input, before, c, client);
      EndedStays(l, moves[|moves| - 1], c, client);
      if l.live {
        StepUnannounced(l, moves[|moves| - 1], c, client);
      }
    }
  }

  lemma StartUnannounced(input: CI.State)
    ensures Unannounced(Start(input))
  {
  }

  // ----- the results

  lemma SameLimits(m: Message, a: Limits, b: Limits)
    requires Bounded(a) == Bounded(b) && IsInput(m)
    ensures MessageError(m, a) == MessageError(m, b)
  {
    hide Bounded;
  }

  /** Input of honest ends: in every interleaving, what the host does with the next event from
      its client is settled by its own switches and one comparison: it is refused if and only if
      input is disabled, the host's limits reject it, or it was stamped with another generation
      than the host's. Neither the sequence check nor the display check ever fires, and an
      event can only be ahead of the host between the sending and the storing of a geometry. */
  lemma RefusedExactly(input: CI.State, moves: seq<Move>, now: int, c: Host.Setup, client: CS.Setup)
    requires Host.SetupOk(c) && Fresh(input)
    ensures var l := After(input, moves, c, client);
            l.live && l.serving && l.up != [] ==>
              var m, r := l.up[0], Host.HandleInput(l.host, l.up[0], now, c).1;
              && !r.AcceptedOutside?
              && (IsInput(m) ==> (r.Refused? <==>
                    !c.enableInput || MessageError(m, c.limits) != None
                    || Host.InputHeader(m).value.0 != l.host.generation))
              && (!IsInput(m) ==> !r.Refused?)
              && (IsInput(m) && Bounded(client.limits) == c.limits ==> MessageError(m, c.limits) == None)
              && (IsInput(m) && Host.InputHeader(m).value.0 > l.host.generation ==>
                    l.stage.Announced? && Host.InputHeader(m).value.0 == l.stage.config.generation)
  {
    hide After, Honest, MessageError, Bounded, Host.HandleInput;
    RunHonest(input, moves, c, client);
    var l := After(input, moves, c, client);
    if l.live && l.serving && l.up != [] {
      HonestVerdict(l, now, c, client);
    }
  }

  lemma HonestVerdict(l: Session, now: int, c: Host.Setup, client: CS.Setup)
    requires Honest(l, client) && l.up != [] && Host.SetupOk(c)
    ensures var m, r := l.up[0], Host.HandleInput(l.host, l.up[0], now, c).1;
            && !r.AcceptedOutside?
            && (IsInput(m) ==> (r.Refused? <==>
                  !c.enableInput || MessageError(m, c.limits) != None
                  || Host.InputHeader(m).value.0 != l.host.generation))
            && (!IsInput(m) ==> !r.Refused?)
            && (IsInput(m) && Bounded(client.limits) == c.limits ==> MessageError(m, c.limits) == None)
            && (IsInput(m) && Host.InputHeader(m).value.0 > l.host.generation ==>
                  l.stage.Announced? && Host.InputHeader(m).value.0 == l.stage.config.generation)
  {
    hide MessageError, Bounded;
    var m := l.up[0];
    assert Sent(m, l.host.lastInputSeq, l.input.sequence, l.announced, client.limits);
    if IsInput(m) {
      var k :| 0 <= k < |l.announced| && KnownAt(m, l.announced[k]);
      SettledGeometry(l, k);
      if Bounded(client.limits) == c.limits {
        SameLimits(m, client.limits, c.limits);
      }
    }
  }

  /** An announced geometry is an earlier one, the host's own, or the one just being announced. */
  lemma SettledGeometry(l: Session, k: nat)
    requires HostShows(l.host, l.stage, l.serving, l.announced) && k < |l.announced|
    ensures var config := l.announced[k];
            && (config.generation == l.host.generation ==> Shows(config, l.host.generation, l.host.width, l.host.height))
            && (config.generation > l.host.generation ==> l.stage.Announced? && config == l.stage.config)
  {
    var settled := Settled(l.stage, l.announced);
    if k < |settled| {
      assert settled[k] == l.announced[k];
    }
  }

  /** With one geometry, input enabled and equal limits, an honest client is never refused. */
  lemma SteadyGeometryNeverRefuses(input: CI.State, moves: seq<Move>, now: int, c: Host.Setup, client: CS.Setup)
    requires Host.SetupOk(c) && Fresh(input) && c.enableInput && Bounded(client.limits) == c.limits
    ensures var l := After(input, moves, c, client);
            l.live && l.serving && l.up != [] && |l.announced| <= 1 ==>
              var r := Host.HandleInput(l.host, l.up[0], now, c).1;
              !r.Refused? && !r.AcceptedOutside?
  {
    hide After, MessageError, Bounded, Host.HandleInput;
    RefusedExactly(input, moves, now, c, client);
    RunHonest(input, moves, c, client);
    var l := After(input, moves, c, client);
    if l.live && l.serving && l.up != [] && |l.announced| <= 1 {
      assert Sent(l.up[0], l.host.lastInputSeq, l.input.sequence, l.announced, client.limits);
      assert Settled(l.stage, l.announced) != [];
    }
  }
}
