/** Whole runs of a host and its client. */
module System {
  import opened Types
  import opened Messages
  import opened Damage
  import Host
  import opened ClientState
  import opened ClientRuns
  import opened Replica

  // ----- one happening

  /** A capture's messages with the heartbeats sent ahead of each. */
  function Interleave(sent: seq<Message>, beats: seq<seq<Message>>): seq<Message> {
    if sent == [] then []
    else if beats == [] then sent
    else beats[0] + [sent[0]] + Interleave(sent[1..], beats[1..])
  }

  /** The encoder takes every one of them. */
  predicate AllSendable(ms: seq<Message>, c: Host.Setup) {
    forall k :: 0 <= k < |ms| ==> Host.SendError(ms[k], c) == None
  }

  /** What the host hands to its peer, and whether it gets through without an error. */
  function Act(h: Host.State, x: Host.Happening, c: Host.Setup): (Host.State, seq<Message>, bool)
    requires Host.SetupOk(c) && MemoryOk(h.memory, c.damage, c.codecs.hash)
    requires x.Taken? ==> Host.Takes(x.image, c)
  {
    match x
    case Taken(image, force, beats) =>
      var (h', sent, err) := Host.SendCapture(h, image, force, c);
      (h', Interleave(sent, beats), err == None && AllSendable(Interleave(sent, beats), c))
    case Beat(m) => (h, [m], AllSendable([m], c))
    case Received(m, now) =>
      var (h', r) := Host.HandleInput(h, m, now, c);
      var answer := if r.Answer? then [Pong(r.nonce)] else [];
      (h', answer, AllSendable(answer, c))
  }

  lemma ActKeepsMemory(h: Host.State, x: Host.Happening, c: Host.Setup)
    requires Host.SetupOk(c) && MemoryOk(h.memory, c.damage, c.codecs.hash)
    requires x.Taken? ==> Host.Takes(x.image, c)
    ensures MemoryOk(Act(h, x, c).0.memory, c.damage, c.codecs.hash)
    ensures !x.Taken? ==> Act(h, x, c).0.memory == h.memory
  {
    hide MemoryOk, Host.SendCapture, AllSendable;
    if x.Taken? {
      Host.SendCaptureMemory(h, x.image, x.force, c);
    }
  }

  // ----- a run

  /** Where a session stands: both states, everything the host handed to its peer, everything
      the framebuffer answered, and whether the host got through without an error. */
  datatype Play =
    Play(host: Host.State, client: State, wire: seq<Message>, outcomes: seq<Outcome>, ok: bool)

  ghost predicate Ready(h: Host.State, s: State, c: Host.Setup, client: Setup) {
    Host.SetupOk(c) && MemoryOk(h.memory, c.damage, c.codecs.hash) && Inv(s, client)
  }

  /** A session that started from these states, after some happenings. A host error ends it. */
  ghost function Played(h: Host.State, s: State, hs: seq<Host.Happening>, c: Host.Setup, client: Setup): (p: Play)
    requires Ready(h, s, c, client) && Host.Possible(hs, c)
    ensures Ready(p.host, p.client, c, client)
    decreases |hs|
  {
    if hs == [] then Play(h, s, [], [], true)
    else
      var p := Played(h, s, hs[..|hs| - 1], c, client);
      if !p.ok then p
      else
        ActKeepsMemory(p.host, hs[|hs| - 1], c);
        var (h', sent, ok) := Act(p.host, hs[|hs| - 1], c);
        var (s', outs) := Run(p.client, EventsOf(sent), client);
        Play(h', s', p.wire + sent, p.outcomes + outs, ok)
  }

  lemma {:induction false} EventsOfConcat(a: seq<Message>, b: seq<Message>)
    ensures EventsOf(a + b) == EventsOf(a) + EventsOf(b)
    decreases |a|
  {
    if a == [] {
      assert a + b == b;
    } else {
      EventsOfConcat(a[1..], b);
      assert (a + b)[1..] == a[1..] + b;
    }
  }

  lemma {:induction false} HeartbeatsUnseen(ms: seq<Message>)
    requires Host.Heartbeats(ms)
    ensures EventsOf(ms) == []
  {
    if ms != [] {
      HeartbeatsUnseen(ms[1..]);
    }
  }

  /** PING and PONG between the messages of a capture, even between the parts of one frame,
      reach the framebuffer as nothing. */
  lemma {:induction false} InterleavedEvents(sent: seq<Message>, beats: seq<seq<Message>>)
    requires forall k :: 0 <= k < |beats| ==> Host.Heartbeats(beats[k])
    ensures EventsOf(Interleave(sent, beats)) == EventsOf(sent)
    decreases |sent|
  {
    hide Host.Heartbeats;
    if sent != [] && beats != [] {
      InterleavedEvents(sent[1..], beats[1..]);
      HeartbeatsUnseen(beats[0]);
      EventsOfConcat(beats[0] + [sent[0]], Interleave(sent[1..], beats[1..]));
      EventsOfConcat(beats[0], [sent[0]]);
      EventsOfConcat([sent[0]], sent[1..]);
      assert sent == [sent[0]] + sent[1..];
    }
  }

  /** Only a capture gives the framebuffer anything. */
  lemma ActEvents(h: Host.State, x: Host.Happening, c: Host.Setup)
    requires Host.SetupOk(c) && MemoryOk(h.memory, c.damage, c.codecs.hash) && Host.Allowed(x, c)
    ensures EventsOf(Act(h, x, c).1) == if x.Taken? then EventsOf(Host.SendCapture(h, x.image, x.force, c).1) else []
  {
    hide Host.SendCapture, Host.HandleInput, AllSendable, Host.Heartbeats, MemoryOk, Host.Takes;
    match x
    case Taken(image, force, beats) => InterleavedEvents(Host.SendCapture(h, image, force, c).1, beats);
    case Beat(m) => assert [m][1..] == [];
    case Received(m, now) =>
      var answer := Act(h, x, c).1;
      assert answer != [] ==> answer[1..] == [];
  }

  lemma LastPossible(hs: seq<Host.Happening>, c: Host.Setup)
    requires hs != [] && Host.Possible(hs, c)
    ensures Host.Possible(hs[..|hs| - 1], c) && Host.Allowed(hs[|hs| - 1], c)
    ensures hs[|hs| - 1].Taken? ==> Host.Takes(hs[|hs| - 1].image, c)
  {
    hide Host.Takes, Host.Heartbeats;
  }

  /** What a happening makes of a session that got through it: the framebuffer runs a capture's
      events, and nothing else moves it. */
  ghost predicate Moved(p: Play, x: Host.Happening, q: Play, c: Host.Setup, client: Setup)
    requires Ready(p.host, p.client, c, client)
  {
    match x
    case Taken(image, force, _) =>
      && Host.Takes(image, c)
      && var (h', sent, err) := Host.SendCapture(p.host, image, force, c);
         var (s', outs) := Run(p.client, EventsOf(sent), client);
         && err == None && q.host == h' && q.client == s' && q.outcomes == p.outcomes + outs
    case Beat(_) => q.host == p.host && q.client == p.client && q.outcomes == p.outcomes
    case Received(m, now) =>
      q.host == Host.HandleInput(p.host, m, now, c).0 && q.client == p.client && q.outcomes == p.outcomes
  }

  lemma PlayedLast(h: Host.State, s: State, hs: seq<Host.Happening>, c: Host.Setup, client: Setup)
    requires Ready(h, s, c, client) && Host.Possible(hs, c) && hs != [] && Played(h, s, hs, c, client).ok
    ensures Host.Possible(hs[..|hs| - 1], c)
    ensures var p := Played(h, s, hs[..|hs| - 1], c, client);
            p.ok && Moved(p, hs[|hs| - 1], Played(h, s, hs, c, client), c, client)
  {
    hide Played, Moved, Act, Ready, Host.Possible;
    LastPossible(hs, c);
    PlayedStep(h, s, hs, c, client);
    ActMoves(Played(h, s, hs[..|hs| - 1], c, client), hs[|hs| - 1], c, client);
  }

  function Onward(p: Play, sent: seq<Message>, h: Host.State, r: (State, seq<Outcome>), ok: bool): Play {
    Play(h, r.0, p.wire + sent, p.outcomes + r.1, ok)
  }

  lemma PlayedStep(h: Host.State, s: State, hs: seq<Host.Happening>, c: Host.Setup, client: Setup)
    requires Ready(h, s, c, client) && Host.Possible(hs, c) && hs != [] && Played(h, s, hs, c, client).ok
    ensures Host.Possible(hs[..|hs| - 1], c) && Host.Allowed(hs[|hs| - 1], c)
    ensures var p, x := Played(h, s, hs[..|hs| - 1], c, client), hs[|hs| - 1];
            && p.ok && Ready(p.host, p.client, c, client) && (x.Taken? ==> Host.Takes(x.image, c))
            && var (h', sent, ok) := Act(p.host, x, c);
               ok && Played(h, s, hs, c, client) == Onward(p, sent, h', Run(p.client, EventsOf(sent), client), ok)
  {
    hide Act, EventsOf, Run, Host.Takes, Inv, MemoryOk, Host.Possible, Host.SetupOk;
    LastPossible(hs, c);
  }

  lemma ActMoves(p: Play, x: Host.Happening, c: Host.Setup, client: Setup)
    requires Ready(p.host, p.client, c, client) && Host.Allowed(x, c) && (x.Taken? ==> Host.Takes(x.image, c))
    requires Act(p.host, x, c).2
    ensures var (h', sent, ok) := Act(p.host, x, c);
            Moved(p, x, Onward(p, sent, h', Run(p.client, EventsOf(sent), client), ok), c, client)
  {
    hide Act, Run, Host.SendCapture, Host.HandleInput, EventsOf, MemoryOk, Host.Takes, Inv;
    ActMeaning(p.host, x, c);
    RunNothing(p.client, client);
    assert p.outcomes + [] == p.outcomes;
  }

  lemma ActMeaning(h: Host.State, x: Host.Happening, c: Host.Setup)
    requires Host.SetupOk(c) && MemoryOk(h.memory, c.damage, c.codecs.hash) && Host.Allowed(x, c)
    requires Act(h, x, c).2
    ensures var (h', sent, _) := Act(h, x, c);
            match x
            case Taken(image, force, _) =>
              var (h1, sent1, err) := Host.SendCapture(h, image, force, c);
              err == None && h' == h1 && EventsOf(sent) == EventsOf(sent1)
            case Beat(_) => h' == h && EventsOf(sent) == []
            case Received(m, now) => h' == Host.HandleInput(h, m, now, c).0 && EventsOf(sent) == []
  {
    hide Host.SendCapture, Host.HandleInput, EventsOf, AllSendable, Host.Takes, MemoryOk, Interleave;
    ActEvents(h, x, c);
  }

  // ----- the replica theorem

  /** Nothing the client sends disturbs the replica. */
  lemma InputKeepsSync(h: Host.State, s: State, m: Message, now: int, c: Host.Setup, client: Setup)
    requires Tiled(c) && InSync(h, s, c, client)
    ensures InSync(Host.HandleInput(h, m, now, c).0, s, c, client)
    ensures Host.HandleInput(h, m, now, c).0.memory == h.memory
  {
    hide Inv, Follows, MemoryOk;
  }

  function LastTaken(hs: seq<Host.Happening>): Option<Image> {
    if hs == [] then None
    else if hs[|hs| - 1].Taken? then Some(hs[|hs| - 1].image)
    else LastTaken(hs[..|hs| - 1])
  }

  lemma InSyncIsReady(h: Host.State, s: State, c: Host.Setup, client: Setup)
    requires Tiled(c) && InSync(h, s, c, client)
    ensures Ready(h, s, c, client)
  {
  }

  /** The replica theorem: over any run of captures, heartbeats, keyframe requests and input
      in which the host reports no error, the framebuffer rejects nothing and afterwards has
      the last captured image's geometry, each tile hashing like that image's. */
  lemma {:induction false} ClientFollowsHost(h: Host.State, s: State, hs: seq<Host.Happening>, c: Host.Setup,
                                             client: Setup)
    requires Matched(c, client) && InSync(h, s, c, client) && Host.Possible(hs, c) && Ready(h, s, c, client)
    requires Played(h, s, hs, c, client).ok
    ensures var p := Played(h, s, hs, c, client);
            && NoneRejected(p.outcomes) && InSync(p.host, p.client, c, client)
            && match LastTaken(hs)
               case None => p.client == s
               case Some(image) => Host.Takes(image, c) && Follows(p.client, Host.Prepare(image, c), c)
    decreases |hs|
  {
    hide InSync, Host.SendCapture, Host.HandleInput, EventsOf, Follows, Run, Host.Prepare, Host.Takes, Ready,
         Host.Possible;
    hide Played;
    if hs == [] {
      NothingPlayed(h, s, c, client);
    } else {
      PlayedLast(h, s, hs, c, client);
      var before := hs[..|hs| - 1];
      ClientFollowsHost(h, s, before, c, client);
      var p := Played(h, s, before, c, client);
      match hs[|hs| - 1]
      case Received(m, now) => InputKeepsSync(p.host, p.client, m, now, c, client);
      case Beat(_) =>
      case Taken(image, force, _) => CaptureKeepsSync(p.host, p.client, image, force, c, client);
    }
  }

  lemma NothingPlayed(h: Host.State, s: State, c: Host.Setup, client: Setup)
    requires Ready(h, s, c, client) && Host.Possible([], c)
    ensures Played(h, s, [], c, client) == Play(h, s, [], [], true)
  {
  }

  /** The client started out exact or a keyframe went out, and since then no tile compared
      changed without its hash changing. */
  ghost predicate NoCollisionSinceKeyframe(h: Host.State, s: State, hs: seq<Host.Happening>, c: Host.Setup,
                                           client: Setup)
    requires Tiled(c) && Ready(h, s, c, client) && Host.Possible(hs, c)
    decreases |hs|
  {
    if hs == [] then s.pixels == h.memory.previous.pixels
    else
      var before := hs[..|hs| - 1];
      var host := Played(h, s, before, c, client).host;
      match hs[|hs| - 1]
      case Taken(image, force, _) =>
        SendsKeyframe(host, image, force, c)
        || (NoCollisionSinceKeyframe(h, s, before, c, client)
            && NoCollision(host.memory.previous, Host.Prepare(image, c), c))
      case _ => NoCollisionSinceKeyframe(h, s, before, c, client)
  }

  /** The replica theorem, byte for byte: with no collision among the tiles compared since the
      last keyframe, the client shows exactly the last captured image; right after any keyframe
      it does whatever came before. */
  lemma {:induction false} ClientEqualsHost(h: Host.State, s: State, hs: seq<Host.Happening>, c: Host.Setup,
                                            client: Setup)
    requires Matched(c, client) && InSync(h, s, c, client) && Host.Possible(hs, c) && Ready(h, s, c, client)
    requires Played(h, s, hs, c, client).ok && NoCollisionSinceKeyframe(h, s, hs, c, client)
    ensures var p := Played(h, s, hs, c, client);
            && p.client.pixels == p.host.memory.previous.pixels
            && match LastTaken(hs)
               case None => true
               case Some(image) => Host.Takes(image, c) && p.client.pixels == Host.Prepare(image, c).pixels
    decreases |hs|
  {
    hide InSync, Host.SendCapture, Host.HandleInput, EventsOf, Follows, Run, Host.Prepare, Host.Takes, Ready;
    hide Host.Possible, Played, SendsKeyframe, NoCollision;
    if hs == [] {
      NothingPlayed(h, s, c, client);
    } else {
      PlayedLast(h, s, hs, c, client);
      var before := hs[..|hs| - 1];
      ClientFollowsHost(h, s, before, c, client);
      var p := Played(h, s, before, c, client);
      match hs[|hs| - 1]
      case Received(m, now) =>
        ClientEqualsHost(h, s, before, c, client);
        InputKeepsSync(p.host, p.client, m, now, c, client);
      case Beat(_) =>
        ClientEqualsHost(h, s, before, c, client);
      case Taken(image, force, _) =>
        InSyncIsReady(p.host, p.client, c, client);
        if SendsKeyframe(p.host, image, force, c) {
          KeyframeIsExact(p.host, p.client, image, force, c, client);
        } else {
          ClientEqualsHost(h, s, before, c, client);
          DeltaIsExact(p.host, p.client, image, force, c, client);
        }
    }
  }

  lemma KeyframeIsExact(h: Host.State, s: State, image: Image, force: bool, c: Host.Setup, client: Setup)
    requires Matched(c, client) && InSync(h, s, c, client) && Ready(h, s, c, client) && Host.Takes(image, c)
    requires Host.SendCapture(h, image, force, c).2 == None && SendsKeyframe(h, image, force, c)
    ensures var (h', sent, _) := Host.SendCapture(h, image, force, c);
            Run(s, EventsOf(sent), client).0.pixels == Host.Prepare(image, c).pixels == h'.memory.previous.pixels
  {
    hide Compare, Run, Host.PlanFrame, Inv, EventsOf, Host.Announce, Patchwork, Follows, Host.Prepare, Host.SendCapture;
    CaptureKeepsSync(h, s, image, force, c, client);
    Host.SendCaptureMemory(h, image, force, c);
    MemoryIsPreviousOrCapture(h.memory, Host.Prepare(image, c), force || h.keyframeRequested, c);
  }

  lemma DeltaIsExact(h: Host.State, s: State, image: Image, force: bool, c: Host.Setup, client: Setup)
    requires Matched(c, client) && InSync(h, s, c, client) && Ready(h, s, c, client) && Host.Takes(image, c)
    requires Host.SendCapture(h, image, force, c).2 == None
    requires s.pixels == h.memory.previous.pixels && NoCollision(h.memory.previous, Host.Prepare(image, c), c)
    ensures var (h', sent, _) := Host.SendCapture(h, image, force, c);
            Run(s, EventsOf(sent), client).0.pixels == Host.Prepare(image, c).pixels == h'.memory.previous.pixels
  {
    hide Compare, Run, Host.PlanFrame, Inv, EventsOf, Host.Announce, Patchwork, Follows, Host.Prepare, NoCollision;
    hide Host.SendCapture;
    CaptureExactness(h, s, image, force, c, client);
    Host.SendCaptureMemory(h, image, force, c);
    MemoryIsPreviousOrCapture(h.memory, Host.Prepare(image, c), force || h.keyframeRequested, c);
    NothingSentNothingShown(s, client);
  }

  /** A fresh service and a fresh framebuffer start in sync, and exact. */
  lemma StartsInSync(c: Host.Setup, client: Setup)
    requires Tiled(c)
    ensures InSync(Host.START, BLANK, c, client) && Ready(Host.START, BLANK, c, client)
    ensures BLANK.pixels == Host.START.memory.previous.pixels
  {
    BlankIsValid(client);
  }

  // ----- the whole wire

  /** What the framebuffer went through is exactly what the wire carried. */
  lemma {:induction false} WireIsRun(h: Host.State, s: State, hs: seq<Host.Happening>, c: Host.Setup, client: Setup)
    requires Ready(h, s, c, client) && Host.Possible(hs, c)
    ensures var p := Played(h, s, hs, c, client);
            Run(s, EventsOf(p.wire), client) == (p.client, p.outcomes)
    decreases |hs|
  {
    hide Run, EventsOf, Act, Ready, Host.Possible;
    if hs == [] {
      assert EventsOf([]) == [] by { NoEvents(); }
      RunNothing(s, client) by { ReadyInv(h, s, c, client); }
    } else {
      LastPossible(hs, c);
      var p := Played(h, s, hs[..|hs| - 1], c, client);
      WireIsRun(h, s, hs[..|hs| - 1], c, client);
      ReadyInv(h, s, c, client);
      ReadyInv(p.host, p.client, c, client);
      if p.ok {
        var sent := Act(p.host, hs[|hs| - 1], c).1;
        EventsOfConcat(p.wire, sent);
        RunConcat(s, EventsOf(p.wire), EventsOf(sent), client);
      }
    }
  }

  lemma NoEvents()
    ensures EventsOf([]) == []
  {
  }

  lemma ReadyInv(h: Host.State, s: State, c: Host.Setup, client: Setup)
    requires Ready(h, s, c, client)
    ensures Inv(s, client) && Host.SetupOk(c) && MemoryOk(h.memory, c.damage, c.codecs.hash)
  {
  }
}
