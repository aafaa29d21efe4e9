/** The client's screen follows the host's in every interleaving of captures and input. */
module LinkScreen {
  import opened Types
  import opened Messages
  import opened Damage
  import Host
  import CS = ClientState
  import CI = ClientInput
  import opened ClientRuns
  import opened Replica
  import opened System
  import opened Link

  /** The framebuffer once everything under way has arrived, and what it will have answered. */
  ghost function Arrived(l: Session, client: CS.Setup): (CS.State, seq<CS.Outcome>)
    requires CS.Inv(l.screen, client)
  {
    Run(l.screen, EventsOf(l.down), client)
  }

  /** What the capture under way will do in one piece, if nothing stops it. */
  function Whole(j: Job, c: Host.Setup): (Host.State, seq<Message>, Option<Error>)
    requires Host.SetupOk(c) && MemoryOk(j.from.memory, c.damage, c.codecs.hash) && Host.Takes(j.image, c)
  {
    Host.SendCapture(j.from, j.image, j.force, c)
  }

  /** The framebuffer is where the messages sent of the capture take `base`, which was in sync
      with the host the capture was taken from. */
  ghost predicate Catching(l: Session, base: CS.State, c: Host.Setup, client: CS.Setup)
    requires Tiled(c) && Sound(l, c, client) && l.stage != Waiting
  {
    && InSync(l.job.from, base, c, client)
    && Arrived(l, client).0 == Run(base, EventsOf(l.job.sent), client).0
    && (Whole(l.job, c).2 == None ==> NoneRejected(Arrived(l, client).1))
  }

  ghost predicate Following(l: Session, c: Host.Setup, client: CS.Setup)
    requires Tiled(c) && Sound(l, c, client)
  {
    if l.stage == Waiting then
      InSync(l.host, Arrived(l, client).0, c, client) && NoneRejected(Arrived(l, client).1)
    else exists base :: Catching(l, base, c, client)
  }

  // ----- messages put on and taken off the queue

  lemma EventsAppend(s: CS.State, down: seq<Message>, m: Message, client: CS.Setup)
    requires CS.Inv(s, client)
    ensures var (s1, outs) := Run(s, EventsOf(down), client);
            var (s2, more) := Run(s1, EventsOf([m]), client);
            Run(s, EventsOf(down + [m]), client) == (s2, outs + more)
  {
    hide CS.Inv, Run;
    EventsOfConcat(down, [m]);
    RunConcat(s, EventsOf(down), EventsOf([m]), client);
  }

  lemma Unseen(s: CS.State, down: seq<Message>, m: Message, client: CS.Setup)
    requires CS.Inv(s, client) && EventOf(m) == None
    ensures EventsOf(down + [m]) == EventsOf(down)
  {
    EventsOfConcat(down, [m]);
    assert [m][1..] == [];
  }

  lemma EventsHead(down: seq<Message>)
    requires down != []
    ensures EventsOf(down) == (if EventOf(down[0]).Some? then [EventOf(down[0]).value] else []) + EventsOf(down[1..])
  {
  }

  /** Reading the first message changes nothing about where the framebuffer will be. */
  lemma ReadArrives(s: CS.State, down: seq<Message>, client: CS.Setup)
    requires CS.Inv(s, client) && down != [] && CS.Inv(Screened(s, down[0], client), client)
    ensures var (s', outs) := Run(s, EventsOf(down), client);
            var (t', rest) := Run(Screened(s, down[0], client), EventsOf(down[1..]), client);
            t' == s' && (NoneRejected(outs) ==> NoneRejected(rest))
  {
    hide CS.Inv, CS.Step;
    EventsHead(down);
    var es := EventsOf(down);
    if EventOf(down[0]).Some? {
      assert es[1..] == EventsOf(down[1..]);
      var rest := Run(Screened(s, down[0], client), EventsOf(down[1..]), client).1;
      assert forall k :: 0 <= k < |rest| ==> rest[k] == Run(s, es, client).1[k + 1];
    } else {
      assert es == EventsOf(down[1..]);
    }
  }

  // ----- the capture's own steps

  lemma SyncIsCapture(a: Host.State, b: Host.State, s: CS.State, c: Host.Setup, client: CS.Setup)
    requires Tiled(c) && SameCapture(a, b) && InSync(b, s, c, client)
    ensures InSync(a, s, c, client)
  {
    hide CS.Inv, Follows, MemoryOk;
  }

  /** A capture in one piece is answered without a rejection, and so is every beginning of it. */
  lemma PrefixUnrejected(j: Job, base: CS.State, sent: seq<Message>, rest: seq<Message>, c: Host.Setup,
                         client: CS.Setup)
    requires Matched(c, client) && MemoryOk(j.from.memory, c.damage, c.codecs.hash) && Host.Takes(j.image, c)
    requires InSync(j.from, base, c, client) && Whole(j, c).2 == None && Whole(j, c).1 == sent + rest
    ensures NoneRejected(Run(base, EventsOf(sent), client).1)
    ensures rest == [] ==> InSync(Whole(j, c).0, Run(base, EventsOf(sent), client).0, c, client)
  {
    hide CS.Inv, Host.SendCapture, Follows, MemoryOk, Patchwork, Untouched, SendsKeyframe, Run, Lossless;
    CaptureKeepsSync(j.from, base, j.image, j.force, c, client);
    EventsOfConcat(sent, rest);
    RunConcat(base, EventsOf(sent), EventsOf(rest), client);
    var all, first := Run(base, EventsOf(sent + rest), client).1, Run(base, EventsOf(sent), client).1;
    assert forall k :: 0 <= k < |first| ==> first[k] == all[k];
    if rest == [] {
      assert sent + rest == sent;
    }
  }

  /** A stage that sends one message of the capture. */
  lemma SendCatches(l: Session, l': Session, m: Message, base: CS.State, rest: seq<Message>, c: Host.Setup,
                    client: CS.Setup)
    requires Matched(c, client) && Sound(l, c, client) && Sound(l', c, client)
    requires l.stage != Waiting && l'.stage != Waiting && Catching(l, base, c, client)
    requires l'.screen == l.screen && l'.down == l.down + [m] && l'.job == l.job.(sent := l.job.sent + [m])
    requires Whole(l.job, c).1 == l.job.sent + [m] + rest
    ensures Catching(l', base, c, client)
  {
    hide CS.Inv, Host.SendCapture, MemoryOk, InSync, Run, Host.Takes;
    SyncHasInv(l.job.from, base, c, client);
    EventsAppend(l.screen, l.down, m, client);
    EventsAppend(base, l.job.sent, m, client);
    if Whole(l.job, c).2 == None {
      PrefixUnrejected(l.job, base, l.job.sent + [m], rest, c, client);
      var more := Run(Arrived(l, client).0, EventsOf([m]), client).1;
      var before, after := Run(base, EventsOf(l.job.sent), client).1, Run(base, EventsOf(l.job.sent + [m]), client).1;
      assert forall k :: 0 <= k < |more| ==> more[k] == after[|before| + k];
    }
  }

  lemma SyncHasInv(h: Host.State, s: CS.State, c: Host.Setup, client: CS.Setup)
    requires Tiled(c) && InSync(h, s, c, client)
    ensures CS.Inv(s, client) && MemoryOk(h.memory, c.damage, c.codecs.hash)
  {
    hide CS.Inv, MemoryOk, Follows;
  }

  /** A stage sends one message of the capture, or none. */
  lemma ContinueSends(l: Session, c: Host.Setup)
    requires Host.SetupOk(c) && MemoryOk(l.host.memory, c.damage, c.codecs.hash) && Host.Takes(l.job.image, c)
    requires l.stage != Waiting
    ensures var l' := Continue(l, c);
            && l'.screen == l.screen && (l'.live && l'.stage == Waiting ==> l'.serving)
            && ((l'.down == l.down && l'.job == l.job)
                || exists m ::
                     && l'.down == l.down + [m] && l'.job == l.job.(sent := l.job.sent + [m])
                     && (l'.stage.Announced? || l'.stage.Sending?))
  {
    hide Prepared, MemoryOk, Host.Takes, Host.Prepare, Host.SendError, Host.PlanMessages;
    if l.stage == Measured {
      PreparedKeeps(l, c);
    }
  }

  /** The rest of a capture in one piece, from what a stage has left to send. */
  lemma RestOfWhole(l: Session, c: Host.Setup) returns (rest: seq<Message>)
    requires Host.SetupOk(c) && MemoryOk(l.job.from.memory, c.damage, c.codecs.hash) && Host.Takes(l.job.image, c)
    requires (l.stage.Announced? || l.stage.Sending?) && Staged(l, c)
    ensures Whole(l.job, c).1 == l.job.sent + rest
  {
    hide Host.SendCapture, MemoryOk, Host.Takes, Host.SendAll;
    rest := Host.SendAll(l.stage.messages, c).0;
  }

  lemma AdvanceFollows(l: Session, c: Host.Setup, client: CS.Setup)
    requires Matched(c, client) && Sound(l, c, client) && l.stage != Waiting && Following(l, c, client)
    requires var l' := Continue(l, c);
             l'.live && Sound(l', c, client) && AtomicSoFar(l', c)
    ensures Following(Continue(l, c), c, client)
  {
    hide Continue, CS.Inv, MemoryOk, Host.Takes, InSync, Run, Staged, Whole, Lossless;
    var l' := Continue(l, c);
    var base :| Catching(l, base, c, client);
    ContinueSends(l, c);
    if l'.down != l.down {
      var m :| l'.down == l.down + [m] && l'.job == l.job.(sent := l.job.sent + [m]);
      var rest := RestOfWhole(l', c);
      SameWhole(l.job, l'.job, c);
      SendCatches(l, l', m, base, rest, c, client);
    } else if l'.stage == Waiting {
      Finished(l, l', base, c, client);
    } else {
      assert Catching(l', base, c, client);
    }
  }

  lemma SameWhole(a: Job, b: Job, c: Host.Setup)
    requires Host.SetupOk(c) && MemoryOk(a.from.memory, c.damage, c.codecs.hash) && Host.Takes(a.image, c)
    requires b == a.(sent := b.sent)
    ensures Whole(a, c) == Whole(b, c)
  {
    hide Host.SendCapture, MemoryOk, Host.Takes;
  }

  /** The last stage: the capture was made in one piece, so host and framebuffer are in sync again. */
  lemma Finished(l: Session, l': Session, base: CS.State, c: Host.Setup, client: CS.Setup)
    requires Matched(c, client) && Sound(l, c, client) && Sound(l', c, client)
    requires l.stage != Waiting && l'.stage == Waiting && l'.live && l'.serving
    requires Catching(l, base, c, client) && AtomicSoFar(l', c)
    requires l'.job == l.job && l'.screen == l.screen && l'.down == l.down
    ensures Following(l', c, client)
  {
    hide CS.Inv, Host.SendCapture, MemoryOk, InSync, Run, Host.Takes, Lossless;
    assert l.job.sent + [] == l.job.sent;
    PrefixUnrejected(l.job, base, l.job.sent, [], c, client);
    SyncIsCapture(l'.host, Whole(l.job, c).0, Arrived(l', client).0, c, client);
  }

  // ----- every other move

  /** The receiving loop, a probe: the capture is left alone and the framebuffer sees nothing. */
  lemma BesideCapture(l: Session, l': Session, c: Host.Setup, client: CS.Setup)
    requires Matched(c, client) && Sound(l, c, client) && Sound(l', c, client) && Following(l, c, client)
    requires SameCapture(l'.host, l.host) && l'.stage == l.stage && l'.job == l.job && l'.screen == l.screen
    requires l'.down == l.down || exists m :: l'.down == l.down + [m] && EventOf(m) == None
    ensures Following(l', c, client)
  {
    hide CS.Inv, Host.SendCapture, MemoryOk, InSync, Run, Host.Takes, Lossless;
    if l'.down != l.down {
      var m :| l'.down == l.down + [m] && EventOf(m) == None;
      Unseen(l.screen, l.down, m, client);
    }
    assert Arrived(l', client) == Arrived(l, client);
    if l.stage == Waiting {
      SyncIsCapture(l'.host, l.host, Arrived(l, client).0, c, client);
    } else {
      var base :| Catching(l, base, c, client);
      assert Catching(l', base, c, client);
    }
  }

  lemma ReceiveFollows(l: Session, c: Host.Setup, client: CS.Setup)
    requires Matched(c, client) && Sound(l, c, client) && Following(l, c, client) && l.down != []
    requires Sound(Receive(l, client), c, client)
    ensures Following(Receive(l, client), c, client)
  {
    hide CS.Inv, Host.SendCapture, MemoryOk, InSync, Run, Host.Takes, Receive, Screened, Lossless;
    var l' := Receive(l, client);
    ReceiveKeeps(l, client);
    ReadArrives(l.screen, l.down, client);
    if l.stage != Waiting {
      var base :| Catching(l, base, c, client);
      assert Catching(l', base, c, client);
    }
  }

  lemma BeginFollows(l: Session, image: Image, force: bool, c: Host.Setup, client: CS.Setup)
    requires Matched(c, client) && Sound(l, c, client) && Following(l, c, client) && l.stage == Waiting
    requires Sound(Begin(l, image, force), c, client)
    ensures Following(Begin(l, image, force), c, client)
  {
    hide CS.Inv, Host.SendCapture, MemoryOk, InSync, Run, Host.Takes, Lossless;
    var l', base := Begin(l, image, force), Arrived(l, client).0;
    SyncHasInv(l.host, base, c, client);
    NothingYet(base, client);
    assert Catching(l', base, c, client);
  }

  lemma NothingYet(s: CS.State, client: CS.Setup)
    requires CS.Inv(s, client)
    ensures Run(s, EventsOf([]), client).0 == s
  {
  }

  lemma HandledPong(l: Session, now: int, c: Host.Setup)
    requires l.up != []
    ensures var l' := Handle(l, now, c);
            l'.down == l.down || exists m :: l'.down == l.down + [m] && EventOf(m) == None
  {
    hide Handle;
    HandleKeeps(l, now, c);
    if Handle(l, now, c).down != l.down {
      var nonce :| Handle(l, now, c).down == l.down + [Pong(nonce)];
      assert EventOf(Pong(nonce)) == None;
    }
  }

  lemma StepFollows(l: Session, m: Move, c: Host.Setup, client: CS.Setup)
    requires Matched(c, client) && Sound(l, c, client) && l.live && AtomicSoFar(l, c) && Following(l, c, client)
    requires var l' := Next(l, m, c, client);
             Sound(l', c, client) && AtomicSoFar(l', c)
    ensures Next(l, m, c, client).live ==> Following(Next(l, m, c, client), c, client)
  {
    hide Sound, MemoryOk, CS.Inv, Host.Takes, Handle, Receive, Operated, Continue, CI.Perform, Encodable,
         Host.SendError;
    hide Following, AtomicSoFar, Matched, FromWindow;
    if Possible(l, m, c, client) && Next(l, m, c, client).live {
      var l' := Next(l, m, c, client);
      match m
      case Take(image, force) => BeginFollows(l, image, force, c, client);
      case Advance => AdvanceFollows(l, c, client);
      case HostProbes(nonce) =>
        assert EventOf(Ping(nonce)) == None;
        BesideCapture(l, l', c, client);
      case HostReads(now) =>
        HandleKeeps(l, now, c);
        HandledPong(l, now, c);
        BesideCapture(l, l', c, client);
      case ClientReads => ReceiveFollows(l, c, client);
      case Joins => BesideCapture(l, l', c, client);
      case Operates(op, accepts) =>
        OperatedKeeps(l, op, accepts);
        BesideCapture(l, l', c, client);
      case ClientProbes(_) => BesideCapture(l, l', c, client);
    }
  }

  lemma {:induction false} RunFollows(input: CI.State, moves: seq<Move>, c: Host.Setup, client: CS.Setup)
    requires Matched(c, client)
    ensures After(input, moves, c, client).live ==> Following(After(input, moves, c, client), c, client)
    decreases |moves|
  {
    hide Sound, Following, AtomicSoFar, Matched, Next;
    MatchedIsOk(c, client);
    if moves == [] {
      StartFollows(input, c, client);
    } else {
      var before := moves[..|moves| - 1];
      RunFollows(input, before, c, client);
      RunAtomic(input, before, c, client);
      var l := After(input, before, c, client);
      StepAtomic(l, moves[|moves| - 1], c, client);
      EndedStays(l, moves[|moves| - 1], c, client);
      if l.live {
        StepFollows(l, moves[|moves| - 1], c, client);
      }
    }
  }

  lemma MatchedIsOk(c: Host.Setup, client: CS.Setup)
    requires Matched(c, client)
    ensures Host.SetupOk(c) && Tiled(c)
  {
    hide Lossless;
  }

  lemma StartFollows(input: CI.State, c: Host.Setup, client: CS.Setup)
    requires Matched(c, client)
    ensures Sound(Start(input), c, client) && Following(Start(input), c, client)
  {
    hide Lossless;
    StartsInSync(c, client);
    NothingYet(CS.BLANK, client);
  }

  // ----- the results

  /** The replica theorem with everything in between: in every interleaving of the stages of
      captures, probes, received messages, the window's input and the client's reading, as long as
      no capture has failed, nothing on its way down will be rejected; and between captures, once
      it has all arrived, every tile of the client hashes as the image the host sent last. */
  lemma ScreenFollows(input: CI.State, moves: seq<Move>, c: Host.Setup, client: CS.Setup)
    requires Matched(c, client)
    ensures var l := After(input, moves, c, client);
            && (l.live && (l.stage == Waiting || Whole(l.job, c).2 == None) ==>
                  NoneRejected(Run(l.screen, EventsOf(l.down), client).1))
            && (l.live && l.stage == Waiting && EventsOf(l.down) == [] ==>
                  && InSync(l.host, l.screen, c, client)
                  && (l.host.memory.previous.pixels != [] ==> Follows(l.screen, l.host.memory.previous, c)))
  {
    hide After, Lossless, Host.SendCapture, Host.Takes, MemoryOk, CS.Inv, Follows;
    RunFollows(input, moves, c, client);
    var l := After(input, moves, c, client);
    if l.live && l.stage == Waiting && EventsOf(l.down) == [] {
      ArrivedIsScreen(l, client);
    }
  }

  lemma ArrivedIsScreen(l: Session, client: CS.Setup)
    requires CS.Inv(l.screen, client) && EventsOf(l.down) == []
    ensures Arrived(l, client).0 == l.screen
  {
  }
}
