/** From AUTH to shown pixels: the joined session carried by two byte streams. */
module Wired {
  import opened Types
  import opened Messages
  import opened Validation
  import opened Damage
  import Host
  import CS = ClientState
  import CI = ClientInput
  import opened Wire
  import Handshake
  import S = Session
  import E = Establishment
  import opened Replica
  import Records
  import opened Link
  import LinkInput
  import LinkScreen

  /** Both endpoints with the bytes between them, the session they carry, and how often either
      end has been called. */
  datatype Connection = Connection(pair: E.Pair, link: Session, calls: nat)

  /** A step of the establishment scripts, or a move of the session. */
  datatype Act = Greet(action: E.Action) | Serve(move: Move)

  // ----- what a move of the session does to the byte streams

  function WritesOfHost(ms: seq<Message>): seq<E.Action> {
    seq(|ms|, k requires 0 <= k < |ms| => E.HostWrites(ms[k]))
  }

  function WritesOfClient(ms: seq<Message>): seq<E.Action> {
    seq(|ms|, k requires 0 <= k < |ms| => E.ClientWrites(ms[k]))
  }

  /** What was put behind the first n messages of a queue. */
  function Behind(queue: seq<Message>, n: nat): seq<Message> {
    if n <= |queue| then queue[n..] else []
  }

  /** The calls a move makes on the two endpoints: a read first, then what it sends. */
  function Calls(l: Session, m: Move, l': Session): seq<E.Action> {
    match m
    case HostReads(_) =>
      [E.HostReads(true, l'.live)] + if l'.live then WritesOfHost(Behind(l'.down, |l.down|)) else []
    case ClientReads =>
      [E.ClientReads(l'.live)] + if l'.live then WritesOfClient(Behind(l'.up, |l.up|)) else []
    case Joins => []
    case Operates(_, _) => WritesOfClient(Behind(l'.up, |l.up|))
    case ClientProbes(_) => WritesOfClient(Behind(l'.up, |l.up|))
    case _ => WritesOfHost(Behind(l'.down, |l.down|))
  }

  function Performed(p: E.Pair, calls: seq<E.Action>, s: E.Setup): E.Pair
    decreases |calls|
  {
    if calls == [] then p else Performed(E.Step(p, calls[0], s), calls[1..], s)
  }

  /** Values fit the fields they travel in. */
  ghost predicate AllTyped(calls: seq<E.Action>) {
    forall k :: 0 <= k < |calls| ==> E.Permitted(calls[k])
  }

  /** Neither end has given up. */
  ghost predicate Open(w: Connection) {
    w.link.live && !w.pair.client.phase.ClientEnded? && !w.pair.host.phase.HostEnded?
  }

  /** The scripts run until the client awaits its display and the host serves; from then on the
      session's threads do, each as soon as its own end is there. */
  ghost predicate CanGreet(p: E.Pair, a: E.Action) {
    match a
    case ClientProceeds => p.client.phase.SendAuth? || p.client.phase.SendHello?
    case ClientReads(handled) => handled && p.client.phase.AwaitAnswer? && p.toClient != []
    case HostReads(admitted, handled) =>
      admitted && handled && (p.host.phase.AwaitAuth? || p.host.phase.AwaitHello?) && p.toHost != []
    case _ => false
  }

  predicate CanServe(p: E.Pair, m: Move) {
    match m
    case ClientReads => p.client.phase.AwaitDisplay? || p.client.phase.Running?
    case Joins => true
    case Operates(_, _) => true
    case ClientProbes(_) => true
    case _ => p.host.phase.Serving?
  }

  ghost function Stepped(w: Connection, a: Act, c: Host.Setup, client: CS.Setup, s: E.Setup): Connection
    requires Sound(w.link, c, client)
  {
    match a
    case Greet(action) =>
      if Open(w) && CanGreet(w.pair, action) && w.calls < U64_MAX then
        Connection(E.Step(w.pair, action, s), w.link, w.calls + 1)
      else w
    case Serve(m) =>
      var l' := Next(w.link, m, c, client);
      var calls := Calls(w.link, m, l');
      if Open(w) && CanServe(w.pair, m) && Possible(w.link, m, c, client)
         && AllTyped(calls) && w.calls + |calls| <= U64_MAX then
        Connection(Performed(w.pair, calls, s), l', w.calls + |calls|)
      else w
  }

  ghost function After(input: CI.State, acts: seq<Act>, c: Host.Setup, client: CS.Setup, s: E.Setup): (w: Connection)
    requires Host.SetupOk(c)
    ensures Sound(w.link, c, client)
    decreases |acts|
  {
    if acts == [] then Connection(E.START, Start(input), 0)
    else
      var w := After(input, acts[..|acts| - 1], c, client, s);
      if acts[|acts| - 1].Serve? then
        StaysSound(w.link, acts[|acts| - 1].move, c, client);
        Stepped(w, acts[|acts| - 1], c, client, s)
      else Stepped(w, acts[|acts| - 1], c, client, s)
  }

  // ----- the session the wire carries is a run of the joined session

  /** The moves of the session that were made. */
  ghost function MovesOf(input: CI.State, acts: seq<Act>, c: Host.Setup, client: CS.Setup, s: E.Setup): seq<Move>
    requires Host.SetupOk(c)
    decreases |acts|
  {
    if acts == [] then []
    else
      var before := acts[..|acts| - 1];
      var w := After(input, before, c, client, s);
      var a := acts[|acts| - 1];
      if a.Serve? && Stepped(w, a, c, client, s).link != w.link then MovesOf(input, before, c, client, s) + [a.move]
      else MovesOf(input, before, c, client, s)
  }

  lemma {:induction false} WireRunsLink(input: CI.State, acts: seq<Act>, c: Host.Setup, client: CS.Setup, s: E.Setup)
    requires Host.SetupOk(c)
    ensures After(input, acts, c, client, s).link == Link.After(input, MovesOf(input, acts, c, client, s), c, client)
    decreases |acts|
  {
    hide Sound, Next, Calls, Performed, AllTyped, Possible, CanServe, E.Step;
    if acts != [] {
      var before := acts[..|acts| - 1];
      WireRunsLink(input, before, c, client, s);
      var w, a := After(input, before, c, client, s), acts[|acts| - 1];
      var moves := MovesOf(input, before, c, client, s);
      if a.Serve? && Stepped(w, a, c, client, s).link != w.link {
        assert (moves + [a.move])[..|moves|] == moves;
      }
    }
  }

  // ----- one call on one endpoint

  function Texts(qs: seq<E.Queued>): (ms: seq<Message>)
    ensures |ms| == |qs| && forall k :: 0 <= k < |qs| ==> ms[k] == qs[k].message
  {
    seq(|qs|, k requires 0 <= k < |qs| => qs[k].message)
  }

  ghost predicate Fits(c: Host.Setup, s: E.Setup) {
    E.Proper(s) && c.limits == s.host.limits && c.version == E.Agreed(s)
  }

  /** The host serves and its next message passes the state check. */
  ghost predicate HostReady(p: E.Pair, m: Message) {
    && p.host.phase.Serving?
    && (p.host.end.state == Handshake.Active || (p.host.end.state == Handshake.Negotiating && m.Display?))
  }

  lemma HostWrite(p: E.Pair, m: Message, toHost: seq<E.Queued>, toClient: seq<E.Queued>, c: Host.Setup, s: E.Setup,
                  n: nat)
      returns (queue: seq<E.Queued>)
    requires Fits(c, s) && E.Joined(p, toHost, toClient, s, n) && n < U64_MAX && E.Permitted(E.HostWrites(m))
    requires HostReady(p, m) && S.HostTraffic(m) && Host.SendError(m, c) == None
    ensures var p' := E.Step(p, E.HostWrites(m), s);
            && E.Joined(p', toHost, queue, s, n + 1) && Texts(queue) == Texts(toClient) + [m]
            && (toClient != [] ==>
                  queue != [] && queue[0] == toClient[0] && Texts(queue[1..]) == Texts(toClient[1..]) + [m])
            && p'.client == p.client && p'.toHost == p.toHost
            && p'.host.phase == p.host.phase && p'.host.end.state == Handshake.Active
  {
    hide E.Joined, E.Step, E.Stream;
    queue := E.HostWritesJoined(p, m, toHost, toClient, s, n);
    HostSendAccepted(p, m, toHost, toClient, c, s, n);
  }

  lemma HostSendAccepted(p: E.Pair, m: Message, toHost: seq<E.Queued>, toClient: seq<E.Queued>, c: Host.Setup,
                         s: E.Setup, n: nat)
    requires Fits(c, s) && E.Joined(p, toHost, toClient, s, n) && HostReady(p, m)
    requires S.HostTraffic(m) && Host.SendError(m, c) == None
    ensures Handshake.Send(p.host.end, m, s.host.limits)
            == (Handshake.Advance(p.host.end.(sent := p.host.end.sent + 1), TypeOf(m), Handshake.Outgoing), None)
    ensures var p' := E.Step(p, E.HostWrites(m), s);
            && p'.client == p.client && p'.toHost == p.toHost
            && p'.host.phase == p.host.phase && p'.host.end.state == Handshake.Active
  {
    hide E.Stream, E.ClientInvariant, E.PlacedForHost, MessageError, S.TokenAccepted, Handshake.Negotiate,
         Handshake.Written;
  }

  ghost predicate ClientReady(p: E.Pair) {
    p.client.phase.Running? && p.client.end.state == Handshake.Active
  }

  lemma ClientWrite(p: E.Pair, m: Message, toHost: seq<E.Queued>, toClient: seq<E.Queued>, c: Host.Setup, s: E.Setup,
                    n: nat)
      returns (queue: seq<E.Queued>)
    requires Fits(c, s) && E.Joined(p, toHost, toClient, s, n) && n < U64_MAX && E.Permitted(E.ClientWrites(m))
    requires ClientReady(p) && S.ClientTraffic(m) && MessageError(m, c.limits) == None
    ensures var p' := E.Step(p, E.ClientWrites(m), s);
            && E.Joined(p', queue, toClient, s, n + 1) && Texts(queue) == Texts(toHost) + [m]
            && p'.host == p.host && p'.toClient == p.toClient && ClientReady(p')
  {
    hide E.Joined, E.Step, E.Stream;
    queue := E.ClientWritesJoined(p, m, toHost, toClient, s, n);
    ClientSendAccepted(p, m, toHost, toClient, c, s, n);
  }

  lemma ClientSendAccepted(p: E.Pair, m: Message, toHost: seq<E.Queued>, toClient: seq<E.Queued>, c: Host.Setup,
                           s: E.Setup, n: nat)
    requires Fits(c, s) && E.Joined(p, toHost, toClient, s, n) && ClientReady(p)
    requires S.ClientTraffic(m) && MessageError(m, c.limits) == None
    ensures Handshake.Send(p.client.end, m, s.host.limits).1 == None
    ensures var p' := E.Step(p, E.ClientWrites(m), s);
            && p'.host == p.host && p'.toClient == p.toClient && ClientReady(p')
  {
    hide E.Stream, E.HostInvariant, E.PlacedForClient, MessageError, Handshake.Written;
  }

  /** Several sends of the client's in a row. */
  lemma {:induction false} ClientWritesAll(p: E.Pair, ms: seq<Message>, toHost: seq<E.Queued>, toClient: seq<E.Queued>,
                                           c: Host.Setup, s: E.Setup, n: nat)
      returns (queue: seq<E.Queued>)
    requires Fits(c, s) && E.Joined(p, toHost, toClient, s, n) && n + |ms| <= U64_MAX && ClientReady(p)
    requires forall k :: 0 <= k < |ms| ==>
               E.Permitted(E.ClientWrites(ms[k])) && S.ClientTraffic(ms[k]) && MessageError(ms[k], c.limits) == None
    ensures var p' := Performed(p, WritesOfClient(ms), s);
            && E.Joined(p', queue, toClient, s, n + |ms|) && Texts(queue) == Texts(toHost) + ms
            && p'.host == p.host && p'.toClient == p.toClient && ClientReady(p')
    decreases |ms|
  {
    hide E.Joined, E.Step, E.Permitted, S.ClientTraffic, MessageError, ClientReady;
    if ms == [] {
      queue := toHost;
      assert Texts(toHost) + [] == Texts(toHost);
    } else {
      var first := ClientWrite(p, ms[0], toHost, toClient, c, s, n);
      queue := ClientWritesAll(E.Step(p, E.ClientWrites(ms[0]), s), ms[1..], first, toClient, c, s, n + 1);
      assert WritesOfClient(ms)[1..] == WritesOfClient(ms[1..]);
      assert Texts(toHost) + [ms[0]] + ms[1..] == Texts(toHost) + ms;
    }
  }

  /** A nonempty queue of records is a nonempty stream. */
  lemma StreamHolds(qs: seq<E.Queued>)
    ensures qs != [] ==> E.Stream(qs) != []
  {
    if qs != [] {
      Records.RecordIsNotEmpty(qs[0].message, qs[0].version, qs[0].sequence, E.Stream(qs[1..]));
    }
  }

  /** The host's next read takes exactly the next record, and the service has it. */
  lemma HostRead(p: E.Pair, toHost: seq<E.Queued>, toClient: seq<E.Queued>, c: Host.Setup, s: E.Setup, n: nat)
    requires Fits(c, s) && E.Joined(p, toHost, toClient, s, n) && toHost != []
    requires p.host.phase.Serving? && p.host.end.state == Handshake.Active
    ensures p.toHost != [] && S.ClientTraffic(toHost[0].message) && toHost[0].sequence >= 3
    ensures Handshake.Receive(p.host.end, p.toHost, s.host.limits).1 == Ok((toHost[0].message, E.Stream(toHost[1..])))
    ensures var p' := E.Step(p, E.HostReads(true, true), s);
            && E.Joined(p', toHost[1..], toClient, s, n + 1)
            && p'.client == p.client && p'.toClient == p.toClient
            && p'.host.phase == p.host.phase && p'.host.end.state == Handshake.Active
  {
    hide E.Stream, Handshake.Receive, E.Sound, S.TokenAccepted, Handshake.Negotiate, E.ClientInvariant;
    StreamHolds(toHost);
    E.HostHeadFact(p, toHost, s);
    E.HostReceives(p, toHost, s);
    var queue := E.HostServes(p, true, true, toHost, toClient, s, n);
    assert p.toClient + [] == p.toClient;
  }

  /** The client's next read takes exactly the next record; it runs once that was a display. */
  lemma ClientRead(p: E.Pair, toHost: seq<E.Queued>, toClient: seq<E.Queued>, c: Host.Setup, s: E.Setup, n: nat)
    requires Fits(c, s) && E.Joined(p, toHost, toClient, s, n) && toClient != []
    requires p.client.phase.AwaitDisplay? || ClientReady(p)
    ensures p.toClient != [] && S.HostTraffic(toClient[0].message)
    ensures p.client.phase.AwaitDisplay? ==> toClient[0].message.Display?
    ensures Handshake.Receive(p.client.end, p.toClient, s.host.limits).1 == Ok((toClient[0].message, E.Stream(toClient[1..])))
    ensures var p' := E.Step(p, E.ClientReads(true), s);
            && E.Joined(p', toHost, toClient[1..], s, n + 1)
            && p'.host == p.host && p'.toHost == p.toHost && ClientReady(p')
  {
    hide E.Stream, Handshake.Receive, E.Sound, E.HostInvariant;
    StreamHolds(toClient);
    E.HeadFact(p, toClient, s);
    E.ClientReceives(p, toClient, s);
    var queue := E.ClientReadsJoined(p, true, toHost, toClient, s, n);
  }

  // ----- the queues of the session are the records on the wire

  predicate Untold(l: Session) {
    l.announced == [] && l.down == [] && l.up == [] && l.stage == Waiting && !l.serving && l.phase == Greeting
  }

  predicate BeforeAnswer(phase: S.ClientPhase) {
    phase.SendAuth? || phase.SendHello? || phase.AwaitAnswer?
  }

  /** Once the host serves, the records towards it are the input under way; and the records
      towards the client, behind an unread SERVER_HELLO, are what the host has sent. */
  ghost predicate Carried(w: Connection, toHost: seq<E.Queued>, toClient: seq<E.Queued>, s: E.Setup) {
    var p, l := w.pair, w.link;
    && E.Joined(p, toHost, toClient, s, w.calls)
    && (if p.host.phase.Serving? then
          Texts(toHost) == l.up && (p.host.end.state == Handshake.Active <==> l.announced != [])
        else Untold(l))
    && (if p.client.phase.Running? then ClientReady(p) && l.phase != Greeting else l.phase == Greeting)
    && (if BeforeAnswer(p.client.phase) then
          p.host.phase.Serving? ==> toClient != [] && Texts(toClient[1..]) == l.down
        else Texts(toClient) == l.down)
  }

  /** The host hands one more message to its peer. */
  lemma HostPuts(w: Connection, l': Session, m: Message, toHost: seq<E.Queued>, toClient: seq<E.Queued>,
                 c: Host.Setup, s: E.Setup)
      returns (queue: seq<E.Queued>)
    requires Fits(c, s) && Open(w) && Carried(w, toHost, toClient, s) && w.pair.host.phase.Serving? && w.calls < U64_MAX
    requires E.Permitted(E.HostWrites(m)) && S.HostTraffic(m) && Host.SendError(m, c) == None
    requires l'.live && l'.down == w.link.down + [m] && l'.up == w.link.up && l'.phase == w.link.phase
    requires if m.Display? then l'.announced != [] else l'.announced == w.link.announced != []
    ensures var w' := Connection(E.Step(w.pair, E.HostWrites(m), s), l', w.calls + 1);
            Carried(w', toHost, queue, s) && Open(w')
  {
    hide E.Joined, E.Step, E.Stream, E.Permitted, Host.SendError;
    ServingState(w.pair, toHost, toClient, s, w.calls);
    queue := HostWrite(w.pair, m, toHost, toClient, c, s, w.calls);
  }

  lemma ServingState(p: E.Pair, toHost: seq<E.Queued>, toClient: seq<E.Queued>, s: E.Setup, n: nat)
    requires E.Joined(p, toHost, toClient, s, n) && p.host.phase.Serving?
    ensures p.host.end.state == Handshake.Active || p.host.end.state == Handshake.Negotiating
  {
    hide E.Stream, E.ClientInvariant, E.PlacedForHost, S.TokenAccepted, Handshake.Negotiate;
  }

  /** A move that puts nothing on the wire. */
  lemma NothingPut(w: Connection, l': Session, toHost: seq<E.Queued>, toClient: seq<E.Queued>, s: E.Setup)
    requires Open(w) && Carried(w, toHost, toClient, s) && l'.live
    requires l'.down == w.link.down && l'.up == w.link.up && l'.announced == w.link.announced
    requires l'.phase == w.link.phase || (l'.phase == Running && w.link.phase == Joining)
    requires w.pair.host.phase.Serving? || (l'.stage == w.link.stage && l'.serving == w.link.serving)
    ensures var w' := Connection(w.pair, l', w.calls);
            Carried(w', toHost, toClient, s) && Open(w')
  {
    hide E.Joined;
  }

  /** The client's threads hand more messages to its peer. */
  lemma ClientPuts(w: Connection, l': Session, ms: seq<Message>, toHost: seq<E.Queued>, toClient: seq<E.Queued>,
                   c: Host.Setup, s: E.Setup)
      returns (queue: seq<E.Queued>)
    requires Fits(c, s) && Open(w) && Carried(w, toHost, toClient, s) && w.link.phase != Greeting
             && w.calls + |ms| <= U64_MAX
    requires forall k :: 0 <= k < |ms| ==>
               E.Permitted(E.ClientWrites(ms[k])) && S.ClientTraffic(ms[k]) && MessageError(ms[k], c.limits) == None
    requires l'.live && l'.up == w.link.up + ms && l'.down == w.link.down && l'.announced == w.link.announced
    requires l'.phase == w.link.phase && l'.stage == w.link.stage && l'.serving == w.link.serving
    ensures var w' := Connection(Performed(w.pair, WritesOfClient(ms), s), l', w.calls + |ms|);
            Carried(w', queue, toClient, s) && Open(w')
  {
    hide E.Joined, E.Step, E.Stream, E.Permitted, MessageError, Performed, S.ClientTraffic, ClientReady;
    queue := ClientWritesAll(w.pair, ms, toHost, toClient, c, s, w.calls);
    ReadyRuns(w.pair);
    ReadyRuns(Performed(w.pair, WritesOfClient(ms), s));
    AnnouncedServes(w, toHost, toClient, s);
  }

  lemma ReadyRuns(p: E.Pair)
    ensures ClientReady(p) ==> p.client.phase.Running?
  {
  }

  /** A client past its greeting has read a display, so the host serves. */
  lemma AnnouncedServes(w: Connection, toHost: seq<E.Queued>, toClient: seq<E.Queued>, s: E.Setup)
    requires Carried(w, toHost, toClient, s) && w.link.phase != Greeting
    ensures w.pair.host.phase.Serving?
  {
    hide E.Joined;
  }

  // ----- every move of the session stays on the wire

  lemma OnePerformed(p: E.Pair, a: E.Action, more: seq<E.Action>, s: E.Setup)
    ensures Performed(p, [a] + more, s) == Performed(E.Step(p, a, s), more, s)
    ensures Performed(p, [], s) == p && Performed(p, [a], s) == E.Step(p, a, s)
  {
    hide E.Step;
    assert ([a] + more)[1..] == more && [a][1..] == [];
  }

  lemma BehindOne(queue: seq<Message>, m: Message)
    ensures Behind(queue + [m], |queue|) == [m] && Behind(queue, |queue|) == []
    ensures WritesOfHost([m]) == [E.HostWrites(m)] && WritesOfHost([]) == []
    ensures WritesOfClient([m]) == [E.ClientWrites(m)] && WritesOfClient([]) == []
  {
  }

  /** The next stage of a capture hands the peer one message it accepts, or none. */
  lemma ContinueWrites(l: Session, c: Host.Setup)
    requires Host.SetupOk(c) && MemoryOk(l.host.memory, c.damage, c.codecs.hash) && Host.Takes(l.job.image, c)
    requires l.stage != Waiting && LinkInput.Falling(l.down, l.stage, l.announced)
    ensures var l' := Continue(l, c);
            && l'.up == l.up && l'.phase == l.phase
            && (l'.live ==>
                  (l'.down == l.down && l'.announced == l.announced)
                  || exists m ::
                       && l'.down == l.down + [m] && S.HostTraffic(m) && Host.SendError(m, c) == None
                       && (if m.Display? then l'.announced != [] else l.stage.Sending? && l'.announced == l.announced))
  {
    hide Prepared, MemoryOk, Host.Takes, Host.Prepare, Host.SendError, Host.PlanMessages;
    if l.stage == Measured {
      PreparedKeeps(l, c);
    } else if l.stage.Sending? && l.stage.messages != [] {
      assert LinkInput.Pending(l.stage)[0].WholeFrame? || LinkInput.Pending(l.stage)[0].Part?;
    }
  }

  /** All that is known of a connection while both ends are up. */
  ghost predicate Ongoing(w: Connection, toHost: seq<E.Queued>, toClient: seq<E.Queued>, c: Host.Setup,
                          client: CS.Setup, s: E.Setup) {
    && Fits(c, s) && Bounded(client.limits) == c.limits
    && Sound(w.link, c, client) && Open(w) && Carried(w, toHost, toClient, s)
    && LinkInput.Honest(w.link, client) && LinkInput.Unannounced(w.link)
  }

  lemma AdvanceCarried(w: Connection, toHost: seq<E.Queued>, toClient: seq<E.Queued>, c: Host.Setup, client: CS.Setup,
                       s: E.Setup)
      returns (queue: seq<E.Queued>)
    requires Ongoing(w, toHost, toClient, c, client, s) && w.pair.host.phase.Serving? && w.link.stage != Waiting
    requires var l' := Continue(w.link, c);
             l'.live && AllTyped(Calls(w.link, Advance, l')) && w.calls + |Calls(w.link, Advance, l')| <= U64_MAX
    ensures var l' := Continue(w.link, c);
            var w' := Connection(Performed(w.pair, Calls(w.link, Advance, l'), s), l', w.calls + |Calls(w.link, Advance, l')|);
            Carried(w', toHost, queue, s) && Open(w')
  {
    hide Carried, Continue, E.Step, MemoryOk, CS.Inv, Host.Takes, E.Permitted, Fits, Performed, LinkInput.Honest,
         Host.SendError;
    var l, l' := w.link, Continue(w.link, c);
    HonestFalls(l, client);
    ContinueWrites(l, c);
    if l'.down == l.down && l'.announced == l.announced {
      BehindOne(l.down, Ping(0));
      OnePerformed(w.pair, E.ClientProceeds, [], s);
      assert Calls(l, Advance, l') == [];
      queue := toClient;
      NothingPut(w, l', toHost, toClient, s);
    } else {
      var m :| l'.down == l.down + [m] && S.HostTraffic(m) && Host.SendError(m, c) == None
               && (if m.Display? then l'.announced != [] else l.stage.Sending? && l'.announced == l.announced);
      BehindOne(l.down, m);
      OnePerformed(w.pair, E.HostWrites(m), [], s);
      SendingIsAnnounced(l, client);
      assert Calls(l, Advance, l') == [E.HostWrites(m)] && Calls(l, Advance, l')[0] == E.HostWrites(m);
      queue := HostPuts(w, l', m, toHost, toClient, c, s);
    }
  }

  lemma HonestFalls(l: Session, client: CS.Setup)
    requires LinkInput.Honest(l, client)
    ensures LinkInput.Falling(l.down, l.stage, l.announced)
  {
    hide LinkInput.Falling, LinkInput.Climbing, LinkInput.HostShows, LinkInput.ClientShows;
  }

  lemma SendingIsAnnounced(l: Session, client: CS.Setup)
    requires LinkInput.Honest(l, client)
    ensures l.stage.Sending? || l.serving || l.phase != Greeting ==> l.announced != []
  {
    if l.announced == [] {
      LinkInput.NothingAnnounced(l, client);
    }
  }

  lemma TextsOfRest(q: seq<E.Queued>)
    requires q != []
    ensures Texts(q) != [] && Texts(q[1..]) == Texts(q)[1..] && q[0].message == Texts(q)[0]
  {
  }

  lemma SomeText(q: seq<E.Queued>)
    ensures Texts(q) != [] ==> q != []
  {
  }

  /** The host's peer reads the head of the input under way. */
  lemma HostPops(w: Connection, l1: Session, toHost: seq<E.Queued>, toClient: seq<E.Queued>, c: Host.Setup, s: E.Setup)
    requires Fits(c, s) && Open(w) && Carried(w, toHost, toClient, s) && w.pair.host.phase.Serving?
    requires w.link.announced != [] && w.link.up != [] && w.calls < U64_MAX
    requires l1.live && l1.up == w.link.up[1..] && l1.down == w.link.down && l1.announced == w.link.announced
    requires l1.phase == w.link.phase
    ensures toHost != []
    ensures var w1 := Connection(E.Step(w.pair, E.HostReads(true, true), s), l1, w.calls + 1);
            Carried(w1, toHost[1..], toClient, s) && Open(w1) && w1.pair.host.phase.Serving?
  {
    hide E.Joined, E.Step, Texts, E.Stream, Handshake.Receive;
    SomeText(toHost);
    HostRead(w.pair, toHost, toClient, c, s, w.calls);
    TextsOfRest(toHost);
  }

  /** The client's peer reads the head of what the host sent; a display gets it going. */
  lemma ClientPops(w: Connection, l1: Session, toHost: seq<E.Queued>, toClient: seq<E.Queued>, c: Host.Setup,
                   s: E.Setup)
    requires Fits(c, s) && Open(w) && Carried(w, toHost, toClient, s) && w.link.down != [] && w.calls < U64_MAX
    requires w.pair.client.phase.AwaitDisplay? || w.pair.client.phase.Running?
    requires l1.live && l1.down == w.link.down[1..] && l1.up == w.link.up && l1.announced == w.link.announced
    requires l1.stage == w.link.stage && l1.serving == w.link.serving
    requires if w.link.down[0].Display? then l1.phase != Greeting else l1.phase == w.link.phase
    ensures toClient != []
    ensures var w1 := Connection(E.Step(w.pair, E.ClientReads(true), s), l1, w.calls + 1);
            Carried(w1, toHost, toClient[1..], s) && Open(w1) && l1.phase != Greeting
  {
    hide E.Joined, E.Step, Texts, E.Stream, Handshake.Receive;
    SomeText(toClient);
    ClientRead(w.pair, toHost, toClient, c, s, w.calls);
    TextsOfRest(toClient);
  }

  /** The host handles what its peer read: the head of the input under way. */
  lemma HandleCarried(w: Connection, now: int, toHost: seq<E.Queued>, toClient: seq<E.Queued>, c: Host.Setup,
                      client: CS.Setup, s: E.Setup)
      returns (h: seq<E.Queued>, queue: seq<E.Queued>)
    requires Ongoing(w, toHost, toClient, c, client, s) && w.pair.host.phase.Serving? && w.link.serving
             && w.link.up != []
    requires var l', calls := Handle(w.link, now, c), Calls(w.link, HostReads(now), Handle(w.link, now, c));
             l'.live && AllTyped(calls) && w.calls + |calls| <= U64_MAX
    ensures var l', calls := Handle(w.link, now, c), Calls(w.link, HostReads(now), Handle(w.link, now, c));
            var w' := Connection(Performed(w.pair, calls, s), l', w.calls + |calls|);
            Carried(w', h, queue, s) && Open(w')
  {
    hide Handle, E.Step, Carried, MemoryOk, CS.Inv, Host.Takes, E.Permitted, Fits, Performed, LinkInput.Honest,
         Host.SendError;
    hide S.HostTraffic;
    var l, l' := w.link, Handle(w.link, now, c);
    SendingIsAnnounced(l, client);
    HandleKeeps(l, now, c);
    HandleTakes(l, now, c);
    HostPops(w, l'.(down := l.down), toHost, toClient, c, s);
    var read := E.HostReads(true, true);
    var w1 := Connection(E.Step(w.pair, read, s), l'.(down := l.down), w.calls + 1);
    h, queue := toHost[1..], toClient;
    if l'.down == l.down {
      BehindOne(l.down, Ping(0));
      assert Calls(l, HostReads(now), l') == [read];
      OnePerformed(w.pair, read, [], s);
      assert l'.(down := l.down) == l';
    } else {
      var nonce :| l'.down == l.down + [Pong(nonce)] && Host.SendError(Pong(nonce), c) == None;
      BehindOne(l.down, Pong(nonce));
      var calls := Calls(l, HostReads(now), l');
      assert calls == [read] + [E.HostWrites(Pong(nonce))] && calls[1] == E.HostWrites(Pong(nonce));
      OnePerformed(w.pair, read, [E.HostWrites(Pong(nonce))], s);
      OnePerformed(w1.pair, E.HostWrites(Pong(nonce)), [], s);
      assert S.HostTraffic(Pong(nonce)) by { PongIsTraffic(nonce); }
      queue := HostPuts(w1, l', Pong(nonce), h, toClient, c, s);
    }
  }

  lemma PongIsTraffic(nonce: nat)
    ensures S.HostTraffic(Pong(nonce))
  {
  }

  lemma HandleTakes(l: Session, now: int, c: Host.Setup)
    requires l.up != []
    ensures Handle(l, now, c).up == l.up[1..] && Handle(l, now, c).phase == l.phase
  {
    hide Host.HandleInput, Host.SendError;
  }

  /** The client handles what its peer read: the head of what the host sent. */
  lemma ReceiveCarried(w: Connection, toHost: seq<E.Queued>, toClient: seq<E.Queued>, c: Host.Setup, client: CS.Setup,
                       s: E.Setup)
      returns (queue: seq<E.Queued>, t: seq<E.Queued>)
    requires Ongoing(w, toHost, toClient, c, client, s) && w.link.down != [] && w.link.phase != Joining
    requires w.pair.client.phase.AwaitDisplay? || w.pair.client.phase.Running?
    requires var l', calls := Receive(w.link, client), Calls(w.link, ClientReads, Receive(w.link, client));
             l'.live && AllTyped(calls) && w.calls + |calls| <= U64_MAX
    ensures var l', calls := Receive(w.link, client), Calls(w.link, ClientReads, Receive(w.link, client));
            var w' := Connection(Performed(w.pair, calls, s), l', w.calls + |calls|);
            Carried(w', queue, t, s) && Open(w')
  {
    hide Receive, E.Step, Carried, MemoryOk, CS.Inv, Host.Takes, E.Permitted, Fits, Performed, LinkInput.Honest,
         MessageError, Screened;
    hide Bounded, S.ClientTraffic;
    var l, l' := w.link, Receive(w.link, client);
    ReceiveKeeps(l, client);
    ClientPops(w, l'.(up := l.up), toHost, toClient, c, s);
    var read := E.ClientReads(true);
    var w1 := Connection(E.Step(w.pair, read, s), l'.(up := l.up), w.calls + 1);
    queue, t := toHost, toClient[1..];
    if l'.up == l.up {
      BehindOne(l.up, Ping(0));
      assert Calls(l, ClientReads, l') == [read];
      OnePerformed(w.pair, read, [], s);
      assert l'.(up := l.up) == l';
    } else {
      var m :| l'.up == l.up + [m] && IsReply(m) && MessageError(m, client.limits) == None;
      FitsLimits(c, s);
      ReplyAccepted(m, client.limits, c.limits);
      BehindOne(l.up, m);
      var calls := Calls(l, ClientReads, l');
      assert calls == [read] + [E.ClientWrites(m)] && calls[1] == E.ClientWrites(m);
      OnePerformed(w.pair, read, [E.ClientWrites(m)], s);
      queue := ClientPuts(w1, l', [m], toHost, t, c, s);
    }
  }

  lemma FitsLimits(c: Host.Setup, s: E.Setup)
    requires Fits(c, s)
    ensures c.limits == Bounded(c.limits)
  {
  }

  lemma ReplyAccepted(m: Message, a: Limits, b: Limits)
    requires (IsReply(m) || m.Ping?) && Bounded(a) == b && b == Bounded(b) && MessageError(m, a) == None
    ensures MessageError(m, b) == None && S.ClientTraffic(m)
  {
    hide Bounded;
  }

  /** The window's operations and the client's probes. */
  lemma OperatedCarried(w: Connection, op: CI.Operation, accepts: nat, toHost: seq<E.Queued>, toClient: seq<E.Queued>,
                        c: Host.Setup, client: CS.Setup, s: E.Setup)
      returns (queue: seq<E.Queued>)
    requires Ongoing(w, toHost, toClient, c, client, s)
    requires FromWindow(w.link.input, op) && Encodable(CI.Perform(w.link.input, op, accepts).sent, client)
    requires var l', calls := Operated(w.link, op, accepts), Calls(w.link, Operates(op, accepts), Operated(w.link, op, accepts));
             AllTyped(calls) && w.calls + |calls| <= U64_MAX
    ensures var l', calls := Operated(w.link, op, accepts), Calls(w.link, Operates(op, accepts), Operated(w.link, op, accepts));
            var w' := Connection(Performed(w.pair, calls, s), l', w.calls + |calls|);
            Carried(w', queue, toClient, s) && Open(w')
  {
    hide CI.Perform, E.Step, E.Joined, MemoryOk, CS.Inv, Host.Takes, E.Permitted, Fits, Performed, MessageError,
         FromWindow;
    hide LinkInput.HostShows, LinkInput.Falling, LinkInput.Climbing, LinkInput.ShownIn, Bounded, S.ClientTraffic;
    var l, l' := w.link, Operated(w.link, op, accepts);
    var ms := CI.Perform(l.input, op, accepts).sent;
    var calls := Calls(l, Operates(op, accepts), l');
    assert Behind(l'.up, |l.up|) == ms;
    assert calls == WritesOfClient(ms);
    if l.phase == Greeting {
      LinkInput.SilentBeforeDisplay(l.input, op, accepts, client);
      OnePerformed(w.pair, E.ClientProceeds, [], s);
      assert l'.up == l.up && calls == [];
      queue := toHost;
      NothingPut(w, l', toHost, toClient, s);
    } else {
      LinkInput.WindowSends(l.input, op, accepts);
      forall k | 0 <= k < |ms|
        ensures E.Permitted(E.ClientWrites(ms[k])) && S.ClientTraffic(ms[k]) && MessageError(ms[k], c.limits) == None
      {
        assert calls[k] == E.ClientWrites(ms[k]);
        assert LinkInput.StampedOne(ms[k], l.input);
        InputAccepted(ms[k], client.limits, c.limits);
      }
      queue := ClientPuts(w, l', ms, toHost, toClient, c, s);
    }
  }

  lemma InputAccepted(m: Message, a: Limits, b: Limits)
    requires LinkInput.IsInput(m) && Bounded(a) == b && b == Bounded(b) && MessageError(m, a) == None
    ensures MessageError(m, b) == None && S.ClientTraffic(m)
  {
    hide Bounded, MessageError;
    LinkInput.SameLimits(m, a, b);
  }

  lemma ServeCarried(w: Connection, m: Move, toHost: seq<E.Queued>, toClient: seq<E.Queued>, c: Host.Setup,
                     client: CS.Setup, s: E.Setup)
      returns (h: seq<E.Queued>, t: seq<E.Queued>)
    requires Ongoing(w, toHost, toClient, c, client, s)
    ensures var w' := Stepped(w, Serve(m), c, client, s);
            w'.link.live ==> Carried(w', h, t, s) && Open(w')
  {
    hide MemoryOk, CS.Inv, Host.Takes, Handle, Receive, Operated, Continue, CI.Perform, MessageError, Encodable,
         Host.SendError;
    hide Carried, E.Step, Performed, AllTyped, FromWindow, Fits, LinkInput.Honest, Calls;
    h, t := toHost, toClient;
    var w', l' := Stepped(w, Serve(m), c, client, s), Next(w.link, m, c, client);
    if w' != w && w'.link.live {
      match m
      case Advance => t := AdvanceCarried(w, toHost, toClient, c, client, s);
      case HostReads(now) => h, t := HandleCarried(w, now, toHost, toClient, c, client, s);
      case ClientReads => h, t := ReceiveCarried(w, toHost, toClient, c, client, s);
      case Operates(op, accepts) => h := OperatedCarried(w, op, accepts, toHost, toClient, c, client, s);
      case HostProbes(nonce) => t := ProbeCarried(w, nonce, toHost, toClient, c, client, s);
      case ClientProbes(nonce) => h := ClientProbeCarried(w, nonce, toHost, toClient, c, client, s);
      case Take(_, _) => StillCarried(w, m, l', toHost, toClient, c, client, s);
      case Joins => StillCarried(w, m, l', toHost, toClient, c, client, s);
    }
  }

  lemma StillCarried(w: Connection, m: Move, l': Session, toHost: seq<E.Queued>, toClient: seq<E.Queued>,
                     c: Host.Setup, client: CS.Setup, s: E.Setup)
    requires Ongoing(w, toHost, toClient, c, client, s) && (m.Take? || m.Joins?) && Possible(w.link, m, c, client)
    requires l' == Moved(w.link, m, c, client) && CanServe(w.pair, m)
    ensures var calls := Calls(w.link, m, l');
            Carried(Connection(Performed(w.pair, calls, s), l', w.calls + |calls|), toHost, toClient, s)
            && Open(Connection(Performed(w.pair, calls, s), l', w.calls + |calls|))
  {
    hide MemoryOk, CS.Inv, Host.Takes, CI.Perform, Carried, E.Step, Fits, LinkInput.Honest, Performed;
    BehindOne(w.link.down, Ping(0));
    OnePerformed(w.pair, E.ClientProceeds, [], s);
    NothingPut(w, l', toHost, toClient, s);
  }

  lemma ProbeCarried(w: Connection, nonce: nat, toHost: seq<E.Queued>, toClient: seq<E.Queued>, c: Host.Setup,
                     client: CS.Setup, s: E.Setup)
      returns (t: seq<E.Queued>)
    requires Ongoing(w, toHost, toClient, c, client, s) && w.pair.host.phase.Serving? && w.link.serving
    requires var l', calls := Emit(w.link, Ping(nonce), c), Calls(w.link, HostProbes(nonce), Emit(w.link, Ping(nonce), c));
             l'.live && AllTyped(calls) && w.calls + |calls| <= U64_MAX
    ensures var l', calls := Emit(w.link, Ping(nonce), c), Calls(w.link, HostProbes(nonce), Emit(w.link, Ping(nonce), c));
            var w' := Connection(Performed(w.pair, calls, s), l', w.calls + |calls|);
            Carried(w', toHost, t, s) && Open(w')
  {
    hide E.Step, Carried, MemoryOk, CS.Inv, Host.Takes, E.Permitted, Fits, Performed, LinkInput.Honest, Host.SendError;
    var l, l', m := w.link, Emit(w.link, Ping(nonce), c), Ping(nonce);
    SendingIsAnnounced(l, client);
    BehindOne(l.down, m);
    OnePerformed(w.pair, E.HostWrites(m), [], s);
    var calls := Calls(l, HostProbes(nonce), l');
    assert calls == [E.HostWrites(m)] && calls[0] == E.HostWrites(m);
    t := HostPuts(w, l', m, toHost, toClient, c, s);
  }

  lemma ClientProbeCarried(w: Connection, nonce: nat, toHost: seq<E.Queued>, toClient: seq<E.Queued>,
                           c: Host.Setup, client: CS.Setup, s: E.Setup)
      returns (h: seq<E.Queued>)
    requires Ongoing(w, toHost, toClient, c, client, s)
    requires w.link.phase == Running && MessageError(Ping(nonce), client.limits) == None
    requires var l' := w.link.(up := w.link.up + [Ping(nonce)]);
             var calls := Calls(w.link, ClientProbes(nonce), l');
             AllTyped(calls) && w.calls + |calls| <= U64_MAX
    ensures var l' := w.link.(up := w.link.up + [Ping(nonce)]);
            var calls := Calls(w.link, ClientProbes(nonce), l');
            var w' := Connection(Performed(w.pair, calls, s), l', w.calls + |calls|);
            Carried(w', h, toClient, s) && Open(w')
  {
    hide E.Step, Carried, MemoryOk, CS.Inv, Host.Takes, E.Permitted, Fits, Performed, LinkInput.Honest, MessageError,
         Bounded;
    hide S.ClientTraffic;
    var l, m := w.link, Ping(nonce);
    var l' := l.(up := l.up + [m]);
    BehindOne(l.up, m);
    FitsLimits(c, s);
    ReplyAccepted(m, client.limits, c.limits);
    var calls := Calls(l, ClientProbes(nonce), l');
    assert calls == [E.ClientWrites(m)] && calls[0] == E.ClientWrites(m);
    h := ClientPuts(w, l', [m], toHost, toClient, c, s);
  }

  // ----- the establishment scripts carry nothing of the session yet

  /** Before the host serves, the client still waits for its answer, and nothing is written to it. */
  lemma EarlyEnds(p: E.Pair, toHost: seq<E.Queued>, toClient: seq<E.Queued>, s: E.Setup, n: nat)
    requires E.Joined(p, toHost, toClient, s, n) && !p.client.phase.ClientEnded? && !p.host.phase.HostEnded?
    ensures !p.host.phase.Serving? ==>
              BeforeAnswer(p.client.phase) && toClient == [] && p.toClient == [] && p.host.end.sent == 0
    ensures p.client.phase.SendAuth? || p.client.phase.SendHello? ==> !p.host.phase.Serving?
    ensures BeforeAnswer(p.client.phase) ==> p.client.end.sent <= 2 && p.client.end.receiver.sequence == 0
  {
    hide E.Stream, E.PlacedForHost, E.PlacedForClient, S.TokenAccepted, Handshake.Negotiate;
    E.EmptyStream(toClient);
  }

  lemma ServingCounts(p: E.Pair, toHost: seq<E.Queued>, toClient: seq<E.Queued>, s: E.Setup, n: nat)
    requires E.Joined(p, toHost, toClient, s, n) && p.host.phase.Serving? && !p.client.phase.ClientEnded?
    ensures 1 <= p.host.end.sent == p.client.end.receiver.sequence + |toClient|
    ensures p.client.end.sent == p.host.end.receiver.sequence + |toHost| && 2 <= p.host.end.receiver.sequence
    ensures p.host.end.sent == 1 ==> p.host.end.state != Handshake.Active
  {
    hide E.Stream, E.PlacedForHost, E.PlacedForClient, S.TokenAccepted, Handshake.Negotiate, E.ClientShape;
  }

  /** A greeting step of one end leaves the other alone and moves its own script. */
  lemma GreetMoves(p: E.Pair, a: E.Action, s: E.Setup)
    requires CanGreet(p, a)
    ensures var p' := E.Step(p, a, s);
            match a
            case ClientProceeds =>
              && p'.host == p.host && p'.toClient == p.toClient
              && (p'.client.phase.ClientEnded? || BeforeAnswer(p'.client.phase))
            case ClientReads(_) =>
              && p'.host == p.host && p'.toHost == p.toHost
              && (p'.client.phase.ClientEnded? || p'.client.phase.AwaitDisplay?)
            case _ =>
              && p'.client == p.client && p'.host.end.sent <= p.host.end.sent + 1
              && (p'.host.phase.HostEnded?
                  || (if p.host.phase.AwaitAuth? then p'.host.phase.AwaitHello? else p'.host.phase.Serving?))
  {
    hide Records.DecodeRecord, Records.EncodeError, Records.Record, S.TokenAccepted, Handshake.Negotiate;
  }

  lemma GreetCarried(w: Connection, a: E.Action, toHost: seq<E.Queued>, toClient: seq<E.Queued>, c: Host.Setup,
                     s: E.Setup)
      returns (h: seq<E.Queued>, t: seq<E.Queued>)
    requires Fits(c, s) && Open(w) && Carried(w, toHost, toClient, s)
    requires CanGreet(w.pair, a) && w.calls < U64_MAX
    ensures var w' := Connection(E.Step(w.pair, a, s), w.link, w.calls + 1);
            Open(w') ==> Carried(w', h, t, s)
  {
    hide E.Step, E.Joined;
    h, t := toHost, toClient;
    var p, p' := w.pair, E.Step(w.pair, a, s);
    GreetMoves(p, a, s);
    EarlyEnds(p, toHost, toClient, s, w.calls);
    match a
    case ClientProceeds => h := E.ClientProceedsJoined(p, toHost, toClient, s, w.calls);
    case ClientReads(_) =>
      t := E.ClientReadsJoined(p, true, toHost, toClient, s, w.calls);
      assert E.ClientListens(p);
    case HostReads(_, _) =>
      if p.host.phase.AwaitAuth? {
        h, t := E.HostAuthenticates(p, true, true, toHost, toClient, s, w.calls);
      } else {
        h, t := E.HostGreets(p, true, true, toHost, toClient, s, w.calls);
        if Open(Connection(p', w.link, w.calls + 1)) {
          ServingCounts(p', h, t, s, w.calls + 1);
        }
      }
    case _ =>
  }

  // ----- every run

  /** Both ends' configurations agree. */
  ghost predicate Paired(c: Host.Setup, client: CS.Setup, s: E.Setup) {
    Host.SetupOk(c) && Fits(c, s) && Bounded(client.limits) == c.limits
  }

  lemma StartCarried(input: CI.State, s: E.Setup)
    ensures Carried(Connection(E.START, Start(input), 0), [], [], s)
  {
    E.StartJoined(s);
  }

  lemma StepCarried(w: Connection, a: Act, toHost: seq<E.Queued>, toClient: seq<E.Queued>, c: Host.Setup,
                    client: CS.Setup, s: E.Setup)
      returns (h: seq<E.Queued>, t: seq<E.Queued>)
    requires Ongoing(w, toHost, toClient, c, client, s)
    ensures Open(Stepped(w, a, c, client, s)) ==> Carried(Stepped(w, a, c, client, s), h, t, s)
    ensures a.Serve? && Stepped(w, a, c, client, s).link.live ==> Open(Stepped(w, a, c, client, s))
  {
    hide Sound, E.Step, Carried, CanGreet, Fits, LinkInput.Honest, LinkInput.Unannounced, Performed, Next, Calls;
    h, t := toHost, toClient;
    match a
    case Serve(m) => h, t := ServeCarried(w, m, toHost, toClient, c, client, s);
    case Greet(action) =>
      if CanGreet(w.pair, action) && w.calls < U64_MAX {
        h, t := GreetCarried(w, action, toHost, toClient, c, s);
      }
  }

  lemma {:induction false} RunCarried(input: CI.State, acts: seq<Act>, c: Host.Setup, client: CS.Setup, s: E.Setup)
      returns (h: seq<E.Queued>, t: seq<E.Queued>)
    requires Paired(c, client, s) && Fresh(input)
    ensures var w := After(input, acts, c, client, s);
            Open(w) ==> Ongoing(w, h, t, c, client, s)
    decreases |acts|
  {
    hide Sound, Stepped, Carried, Open, Fits, LinkInput.Honest, LinkInput.Unannounced;
    if acts == [] {
      h, t := [], [];
      StartCarried(input, s);
    } else {
      var before := acts[..|acts| - 1];
      h, t := RunCarried(input, before, c, client, s);
      var w := After(input, before, c, client, s);
      ClosedStays(w, acts[|acts| - 1], c, client, s);
      if Open(w) {
        h, t := StepCarried(w, acts[|acts| - 1], h, t, c, client, s);
      }
    }
    LinkIsHonest(input, acts, c, client, s);
  }

  lemma ClosedStays(w: Connection, a: Act, c: Host.Setup, client: CS.Setup, s: E.Setup)
    requires Sound(w.link, c, client)
    ensures !Open(w) ==> Stepped(w, a, c, client, s) == w
  {
    hide Sound, Next, Calls, E.Step, Performed;
  }

  lemma LinkIsHonest(input: CI.State, acts: seq<Act>, c: Host.Setup, client: CS.Setup, s: E.Setup)
    requires Paired(c, client, s) && Fresh(input)
    ensures var w := After(input, acts, c, client, s);
            Open(w) ==> w.link.live && LinkInput.Honest(w.link, client) && LinkInput.Unannounced(w.link)
  {
    hide After, Link.After, MovesOf, LinkInput.Honest, LinkInput.Unannounced;
    WireRunsLink(input, acts, c, client, s);
    var moves := MovesOf(input, acts, c, client, s);
    LinkInput.RunHonest(input, moves, c, client);
    LinkInput.RunUnannounced(input, moves, c, client);
  }

  // ----- the results

  /** The bytes carry the session: in every interleaving of the scripts and of the session's
      threads, while both ends are up, what a serving host or a client past its greeting reads
      next from its stream is exactly the next message the other handed to its peer, and the
      stream is empty exactly when nothing is under way. */
  lemma BytesCarrySession(input: CI.State, acts: seq<Act>, c: Host.Setup, client: CS.Setup, s: E.Setup)
    requires Paired(c, client, s) && Fresh(input)
    ensures var w := After(input, acts, c, client, s);
            Open(w) ==>
              && (w.pair.host.phase.Serving? ==>
                    && (w.pair.toHost == [] <==> w.link.up == [])
                    && (w.link.up != [] ==>
                          var r := Handshake.Receive(w.pair.host.end, w.pair.toHost, s.host.limits).1;
                          r.Ok? && r.value.0 == w.link.up[0]))
              && (!BeforeAnswer(w.pair.client.phase) ==>
                    && (w.pair.toClient == [] <==> w.link.down == [])
                    && (w.link.down != [] ==>
                          var r := Handshake.Receive(w.pair.client.end, w.pair.toClient, s.host.limits).1;
                          r.Ok? && r.value.0 == w.link.down[0]))
  {
    hide After, E.Step, Handshake.Receive, LinkInput.Honest;
    var h, t := RunCarried(input, acts, c, client, s);
    var w := After(input, acts, c, client, s);
    if Open(w) {
      if w.pair.host.phase.Serving? {
        HostSide(w, h, t, c, client, s);
      }
      if !BeforeAnswer(w.pair.client.phase) {
        ClientSide(w, h, t, c, client, s);
      }
    }
  }

  lemma HostSide(w: Connection, h: seq<E.Queued>, t: seq<E.Queued>, c: Host.Setup, client: CS.Setup, s: E.Setup)
    requires Ongoing(w, h, t, c, client, s) && w.pair.host.phase.Serving?
    ensures w.pair.toHost == [] <==> w.link.up == []
    ensures w.link.up != [] ==>
              var r := Handshake.Receive(w.pair.host.end, w.pair.toHost, s.host.limits).1;
              r.Ok? && r.value.0 == w.link.up[0]
  {
    hide E.Step, E.Stream, Handshake.Receive, MemoryOk, CS.Inv, Host.Takes, LinkInput.Honest;
    StreamOfHost(w.pair, h, t, s, w.calls);
    StreamHolds(h);
    E.EmptyStream(h);
    if w.link.up != [] {
      HostRead(w.pair, h, t, c, s, w.calls);
    }
  }

  lemma StreamOfHost(p: E.Pair, h: seq<E.Queued>, t: seq<E.Queued>, s: E.Setup, n: nat)
    requires E.Joined(p, h, t, s, n)
    ensures !p.host.phase.HostEnded? ==> p.toHost == E.Stream(h)
    ensures !p.client.phase.ClientEnded? ==> p.toClient == E.Stream(t)
  {
    hide E.Stream, E.PlacedForHost, E.PlacedForClient, E.ClientShape, S.HostVouches;
  }

  lemma ClientSide(w: Connection, h: seq<E.Queued>, t: seq<E.Queued>, c: Host.Setup, client: CS.Setup, s: E.Setup)
    requires Ongoing(w, h, t, c, client, s) && !BeforeAnswer(w.pair.client.phase)
    ensures w.pair.toClient == [] <==> w.link.down == []
    ensures w.link.down != [] ==>
              var r := Handshake.Receive(w.pair.client.end, w.pair.toClient, s.host.limits).1;
              r.Ok? && r.value.0 == w.link.down[0]
  {
    hide E.Step, E.Stream, Handshake.Receive, MemoryOk, CS.Inv, Host.Takes, LinkInput.Honest;
    StreamOfHost(w.pair, h, t, s, w.calls);
    StreamHolds(t);
    E.EmptyStream(t);
    if w.link.down != [] {
      ClientRead(w.pair, h, t, c, s, w.calls);
    }
  }

  /** A live session is never ended by the wire: once both scripts are through, every move that
      leaves the session going leaves both ends up. */
  lemma WireNeverEnds(input: CI.State, acts: seq<Act>, m: Move, c: Host.Setup, client: CS.Setup, s: E.Setup)
    requires Paired(c, client, s) && Fresh(input) && Open(After(input, acts, c, client, s))
    ensures var w' := After(input, acts + [Serve(m)], c, client, s);
            w'.link.live ==> Open(w')
  {
    hide Sound, Stepped, Fits, LinkInput.Honest;
    var h, t := RunCarried(input, acts, c, client, s);
    assert (acts + [Serve(m)])[..|acts|] == acts;
    h, t := StepCarried(After(input, acts, c, client, s), Serve(m), h, t, c, client, s);
  }

  /** From AUTH to shown pixels: in every interleaving that starts with the client's AUTH and goes
      on with captures in stages, probes, input and reads over both byte streams, a running client
      belongs to a host that accepted its token, and both are pinned to one version; and between
      captures, once the client has read every byte, it shows the geometry of the image the host
      sent last, and every tile of it hashes as that image's. */
  lemma FromAuthToPixels(input: CI.State, acts: seq<Act>, c: Host.Setup, client: CS.Setup, s: E.Setup)
    requires Matched(c, client) && Paired(c, client, s) && Fresh(input)
    ensures var w := After(input, acts, c, client, s);
            Open(w) && w.pair.client.phase.Running? ==>
              && w.pair.host.phase.Serving? && S.TokenAccepted(s.token, s.host.token)
              && w.pair.client.end.sendVersion == w.pair.host.end.sendVersion == E.Agreed(s)
              && (w.pair.toClient == [] && w.link.stage == Waiting ==>
                    Follows(w.link.screen, w.link.host.memory.previous, c))
  {
    hide After, Link.After, MovesOf, E.Step, Follows, Lossless;
    var w := After(input, acts, c, client, s);
    if Open(w) && w.pair.client.phase.Running? {
      var h, t := RunCarried(input, acts, c, client, s);
      RunningIsPinned(w, h, t, c, client, s);
      if w.pair.toClient == [] && w.link.stage == Waiting {
        ClientSide(w, h, t, c, client, s);
        WireRunsLink(input, acts, c, client, s);
        LinkScreen.ScreenFollows(input, MovesOf(input, acts, c, client, s), c, client);
        SomethingShown(w, h, t, c, client, s);
      }
    }
  }

  lemma RunningIsPinned(w: Connection, h: seq<E.Queued>, t: seq<E.Queued>, c: Host.Setup, client: CS.Setup, s: E.Setup)
    requires Ongoing(w, h, t, c, client, s) && w.pair.client.phase.Running?
    ensures w.pair.host.phase.Serving? && S.TokenAccepted(s.token, s.host.token)
    ensures w.pair.client.end.sendVersion == w.pair.host.end.sendVersion == E.Agreed(s)
  {
    hide E.Stream, E.PlacedForHost, E.PlacedForClient, S.TokenAccepted, Handshake.Negotiate, MemoryOk, CS.Inv,
         Host.Takes;
    hide LinkInput.Honest;
  }

  /** A host that announced a geometry remembers an image. */
  lemma SomethingShown(w: Connection, h: seq<E.Queued>, t: seq<E.Queued>, c: Host.Setup, client: CS.Setup, s: E.Setup)
    requires Matched(c, client) && Ongoing(w, h, t, c, client, s) && w.pair.client.phase.Running?
    requires w.link.stage == Waiting && InSync(w.link.host, w.link.screen, c, client)
    ensures w.link.host.memory.previous.pixels != []
  {
    hide E.Joined, MemoryOk, CS.Inv, Host.Takes, Follows, Lossless, LinkInput.Climbing, LinkInput.Falling;
    SendingIsAnnounced(w.link, client);
  }
}
