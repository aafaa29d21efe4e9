/** What the host was told to hold is what the client's books say it holds. */
module LinkBooks {
  import opened Types
  import opened Messages
  import opened Validation
  import opened Damage
  import Host
  import CS = ClientState
  import CI = ClientInput
  import opened Link
  import opened LinkInput

  // ----- nothing is lost, repeated or reordered on the way up

  function InputsOf(ms: seq<Message>): seq<Message> {
    if ms == [] then []
    else if IsInput(ms[0]) then [ms[0]] + InputsOf(ms[1..])
    else InputsOf(ms[1..])
  }

  lemma {:induction false} InputsOfConcat(a: seq<Message>, b: seq<Message>)
    ensures InputsOf(a + b) == InputsOf(a) + InputsOf(b)
    decreases |a|
  {
    if a == [] {
      assert a + b == b;
    } else {
      InputsOfConcat(a[1..], b);
      assert (a + b)[1..] == a[1..] + b;
    }
  }

  lemma {:induction false} AllInputs(ms: seq<Message>)
    requires forall k :: 0 <= k < |ms| ==> IsInput(ms[k])
    ensures InputsOf(ms) == ms
  {
    if ms != [] {
      AllInputs(ms[1..]);
      assert ms == [ms[0]] + ms[1..];
    }
  }

  lemma OneInput(m: Message)
    ensures InputsOf([m]) == if IsInput(m) then [m] else []
  {
    assert [m][1..] == [];
  }

  /** What was sent has been read or is still under way, in order; what was read has been
      accepted or counted as dropped. */
  ghost predicate Conserved(l: Session) {
    && l.sent == l.read + InputsOf(l.up)
    && |l.accepted| + l.host.drops == |l.read|
    && (l.host.drops == 0 ==> l.accepted == l.read)
  }

  lemma HandleConserves(l: Session, now: int, c: Host.Setup)
    requires l.up != [] && Conserved(l)
    ensures Handle(l, now, c).live ==> Conserved(Handle(l, now, c))
  {
    hide Handle, Host.HandleInput;
    HandledBooks(l, now, c);
    OnlyInputCounts(l.host, l.up[0], now, c);
    assert InputsOf(l.up) == (if IsInput(l.up[0]) then [l.up[0]] else []) + InputsOf(l.up[1..]);
  }

  lemma HandledBooks(l: Session, now: int, c: Host.Setup)
    requires l.up != []
    ensures var m, r, l' := l.up[0], Host.HandleInput(l.host, l.up[0], now, c).1, Handle(l, now, c);
            && l'.host == Host.HandleInput(l.host, m, now, c).0 && l'.up == l.up[1..] && l'.sent == l.sent
            && l'.read == (if IsInput(m) then l.read + [m] else l.read)
            && l'.accepted == (if r.Accepted? then l.accepted + [m] else l.accepted)
            && (r.AcceptedOutside? || r.Refused? ==> !l'.live)
  {
    hide Host.HandleInput, Host.SendError;
  }

  lemma OnlyInputCounts(h: Host.State, m: Message, now: int, c: Host.Setup)
    ensures var (h', r) := Host.HandleInput(h, m, now, c);
            if IsInput(m) then r.Accepted? || r.AcceptedOutside? || r.Refused? || r.Dropped?
            else !r.Accepted? && !r.AcceptedOutside? && h'.drops == h.drops
    ensures var (h', r) := Host.HandleInput(h, m, now, c);
            h'.drops == if r.Dropped? then h.drops + 1 else h.drops
  {
    hide MessageError;
  }

  lemma StepConserves(l: Session, m: Move, c: Host.Setup, client: CS.Setup)
    requires Sound(l, c, client) && l.live && Conserved(l)
    ensures Next(l, m, c, client).live ==> Conserved(Next(l, m, c, client))
  {
    hide MemoryOk, CS.Inv, Host.Takes, Handle, Receive, Continue, CI.Perform, MessageError, Host.SendError,
         Host.HandleInput;
    hide Screened, InputsOf, Conserved;
    if Possible(l, m, c, client) {
      var l' := Next(l, m, c, client);
      match m
      case Advance => ContinueLeaves(l, c); Untouched(l, l');
      case HostReads(now) => HandleConserves(l, now, c);
      case ClientReads => ReceiveConserves(l, client);
      case Operates(op, accepts) => OperatesConserves(l, op, accepts);
      case ClientProbes(nonce) => MoreUp(l, l', Ping(nonce));
      case _ => Untouched(l, l');
    }
  }

  lemma Untouched(l: Session, l': Session)
    requires Conserved(l)
    requires l'.sent == l.sent && l'.read == l.read && l'.accepted == l.accepted && l'.up == l.up
    requires l'.host.drops == l.host.drops
    ensures Conserved(l')
  {
  }

  lemma MoreUp(l: Session, l': Session, m: Message)
    requires Conserved(l) && !IsInput(m) && l'.up == l.up + [m]
    requires l'.sent == l.sent && l'.read == l.read && l'.accepted == l.accepted && l'.host.drops == l.host.drops
    ensures Conserved(l')
  {
    InputsOfConcat(l.up, [m]);
    OneInput(m);
  }

  lemma ContinueLeaves(l: Session, c: Host.Setup)
    requires Host.SetupOk(c) && MemoryOk(l.host.memory, c.damage, c.codecs.hash) && Host.Takes(l.job.image, c)
    requires l.stage != Waiting
    ensures var l' := Continue(l, c);
            && l'.sent == l.sent && l'.read == l.read && l'.accepted == l.accepted && l'.up == l.up
            && l'.host.drops == l.host.drops && l'.input == l.input && l'.phase == l.phase
  {
    hide Prepared, MemoryOk, Host.Takes, Host.Prepare, Host.SendError, Host.PlanMessages;
    if l.stage == Measured {
      PreparedKeeps(l, c);
    }
  }

  lemma ReceiveConserves(l: Session, client: CS.Setup)
    requires l.down != [] && CS.Inv(l.screen, client) && Conserved(l)
    ensures Conserved(Receive(l, client))
  {
    hide CS.Inv, Receive, Screened, Conserved;
    ReceiveKeeps(l, client);
    var l' := Receive(l, client);
    if l'.up == l.up {
      Untouched(l, l');
    } else {
      var m :| l'.up == l.up + [m] && IsReply(m);
      MoreUp(l, l', m);
    }
  }

  lemma OperatesConserves(l: Session, op: CI.Operation, accepts: nat)
    requires FromWindow(l.input, op) && Conserved(l)
    ensures Conserved(Operated(l, op, accepts))
  {
    hide CI.Perform, InputsOf;
    var more := CI.Perform(l.input, op, accepts).sent;
    WindowSends(l.input, op, accepts);
    forall k | 0 <= k < |more|
      ensures IsInput(more[k])
    {
      assert StampedOne(more[k], l.input);
    }
    AllInputs(more);
    InputsOfConcat(l.up, more);
  }

  // ----- the books

  /** A client that was disconnected sends nothing before Connect; from then on its books match
      everything it sent on this connection. */
  ghost predicate Kept(l: Session) {
    if l.phase == Running then CI.Consistent(l.input, l.sent) else l.sent == [] && !l.input.connected
  }

  lemma StepKept(l: Session, m: Move, c: Host.Setup, client: CS.Setup)
    requires Sound(l, c, client) && l.live && Kept(l)
    ensures Next(l, m, c, client).live ==> Kept(Next(l, m, c, client))
  {
    hide MemoryOk, CS.Inv, Host.Takes, Handle, Receive, Continue, MessageError, Host.SendError, CI.Perform;
    hide Screened, CI.KeysDown, CI.ButtonsDown;
    if Possible(l, m, c, client) {
      match m
      case Advance => ContinueLeaves(l, c);
      case HostReads(now) =>
        HandleKeeps(l, now, c);
      case ClientReads =>
        ReceiveKeeps(l, client);
      case Joins =>
        CI.NothingDown();
        ConnectBooks(l.input);
      case Operates(op, accepts) => OperatesKept(l, op, accepts);
      case _ =>
    }
  }

  lemma ConnectBooks(s: CI.State)
    ensures var s' := CI.Perform(s, CI.Connect, 0).state; s'.keys == map[] && s'.buttons == {}
  {
  }

  lemma OperatesKept(l: Session, op: CI.Operation, accepts: nat)
    requires FromWindow(l.input, op) && Kept(l)
    ensures Kept(Operated(l, op, accepts))
  {
    hide CI.Perform, CI.Consistent;
    var r := CI.Perform(l.input, op, accepts);
    if l.phase == Running {
      CI.PerformTracks(l.input, op, accepts, l.sent);
    } else {
      CI.DisconnectedIsQuiet(l.input, op, accepts);
      assert l.sent + r.sent == [];
    }
  }

  lemma {:induction false} RunConserves(input: CI.State, moves: seq<Move>, c: Host.Setup, client: CS.Setup)
    requires Host.SetupOk(c)
    ensures var l := After(input, moves, c, client);
            l.live ==> Conserved(l) && (!input.connected ==> Kept(l))
    decreases |moves|
  {
    hide Sound, Conserved, Kept, Next;
    if moves == [] {
      StartConserves(input);
    } else {
      var before := moves[..|moves| - 1];
      RunConserves(input, before, c, client);
      var l := After(input, before, c, client);
      EndedStays(l, moves[|moves| - 1], c, client);
      if l.live {
        StepConserves(l, moves[|moves| - 1], c, client);
        if !input.connected {
          StepKept(l, moves[|moves| - 1], c, client);
        }
      }
    }
  }

  lemma StartConserves(input: CI.State)
    ensures Conserved(Start(input)) && (!input.connected ==> Kept(Start(input)))
  {
  }

  // ----- the results

  /** Conservation of input: in every interleaving, everything the client sent has been read by
      the host or is still under way, in the order it was sent; and everything read was accepted
      or counted as dropped. */
  lemma InputIsConserved(input: CI.State, moves: seq<Move>, c: Host.Setup, client: CS.Setup)
    requires Host.SetupOk(c)
    ensures var l := After(input, moves, c, client);
            l.live ==>
              && l.sent == l.read + InputsOf(l.up)
              && |l.accepted| + l.host.drops == |l.read|
              && (l.host.drops == 0 ==> l.accepted == l.read)
  {
    hide After;
    RunConserves(input, moves, c, client);
  }

  /** A client that connects again, in every interleaving: once nothing is under way and as long
      as nothing was dropped, the keys and buttons the host was told are down are exactly those in
      the client's books, and none are while the client is connected and unfocused. */
  lemma HostHoldsWhatClientHolds(input: CI.State, moves: seq<Move>, c: Host.Setup, client: CS.Setup)
    requires Host.SetupOk(c) && !input.connected
    ensures var l := After(input, moves, c, client);
            l.live && l.phase == Running && InputsOf(l.up) == [] && l.host.drops == 0 ==>
              && CI.KeysDown(l.accepted) == Some(l.input.keys.Keys)
              && CI.ButtonsDown(l.accepted) == Some(l.input.buttons)
              && (l.input.connected && !l.input.focused ==>
                    CI.KeysDown(l.accepted) == Some({}) && CI.ButtonsDown(l.accepted) == Some({}))
  {
    hide After, CI.KeysDown, CI.ButtonsDown;
    RunConserves(input, moves, c, client);
    var l := After(input, moves, c, client);
    CI.NothingDown();
    assert l.read + [] == l.read;
  }
}
