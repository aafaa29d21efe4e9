/** A client and a host joined by two byte streams, in any interleaving of their steps. */
module Establishment {
  import opened Types
  import opened Messages
  import opened Handshake
  import opened Session
  import opened Wire
  import Codec
  import Records

  datatype Pair = Pair(client: Client, host: Host, toHost: seq<byte>, toClient: seq<byte>)

  datatype Action =
    | ClientProceeds
    | ClientReads(handled: bool)
    | ClientWrites(message: Message)
    | HostReads(admitted: bool, handled: bool)
    | HostWrites(message: Message)

  datatype Setup = Setup(token: seq<byte>, host: HostConfig)

  const START :=
    Pair(Client(Fresh(ClientRole, true), SendAuth), Host(Fresh(HostRole, true), AwaitAuth), [], [])

  /** A read waits for bytes. */
  function Step(p: Pair, a: Action, s: Setup): Pair {
    match a
    case ClientProceeds =>
      var (client, written) := Session.ClientProceeds(p.client, s.token, s.host.limits);
      p.(client := client, toHost := p.toHost + written)
    case ClientReads(handled) =>
      if p.toClient == [] then p
      else
        var (client, rest) := Session.ClientReads(p.client, p.toClient, handled, s.host.limits);
        p.(client := client, toClient := rest)
    case ClientWrites(m) =>
      var (client, written) := Session.ClientWrites(p.client, m, s.host.limits);
      p.(client := client, toHost := p.toHost + written)
    case HostReads(admitted, handled) =>
      if p.toHost == [] then p
      else
        var (host, rest, written) := Session.HostReads(p.host, p.toHost, admitted, handled, s.host);
        p.(host := host, toHost := rest, toClient := p.toClient + written)
    case HostWrites(m) =>
      var (host, written) := Session.HostWrites(p.host, m, s.host);
      p.(host := host, toClient := p.toClient + written)
  }

  function Run(actions: seq<Action>, s: Setup): Pair
    decreases |actions|
  {
    if actions == [] then START else Step(Run(actions[..|actions| - 1], s), actions[|actions| - 1], s)
  }

  // ----- records in flight

  datatype Queued = Queued(message: Message, version: nat, sequence: nat)

  function Stream(qs: seq<Queued>): seq<byte> {
    if qs == [] then []
    else Records.Record(qs[0].message, qs[0].version, qs[0].sequence, Stream(qs[1..]))
  }

  lemma PutAppends(v: nat, a: seq<byte>, b: seq<byte>)
    ensures Put16(v, a + b) == Put16(v, a) + b
    ensures Put32(v, a + b) == Put32(v, a) + b
    ensures Put64(v, a + b) == Put64(v, a) + b
  {
  }

  lemma RecordAppends(q: Queued, a: seq<byte>, b: seq<byte>)
    ensures Records.Record(q.message, q.version, q.sequence, a + b)
            == Records.Record(q.message, q.version, q.sequence, a) + b
  {
    hide Put16, Put32, Put64, Marshal;
    var body := Marshal(q.message) + a;
    assert Marshal(q.message) + (a + b) == body + b;
    var s0 := Put64(q.sequence, body);
    PutAppends(q.sequence, body, b);
    var s1 := Put32(|Marshal(q.message)|, s0);
    PutAppends(|Marshal(q.message)|, s0, b);
    PutAppends(0, s1, b);
    PutAppends(0, Put16(0, s1), b);
    var s3 := Put16(0, Put16(0, s1));
    PutAppends(TypeOf(q.message), s3, b);
    PutAppends(q.version, Put16(TypeOf(q.message), s3), b);
  }

  lemma {:induction false} StreamAppends(qs: seq<Queued>, q: Queued)
    ensures Stream(qs + [q]) == Stream(qs) + Records.Record(q.message, q.version, q.sequence, [])
    decreases |qs|
  {
    hide Records.Record;
    if qs == [] {
      assert qs + [q] == [q];
    } else {
      assert (qs + [q])[1..] == qs[1..] + [q];
      StreamAppends(qs[1..], q);
      RecordAppends(qs[0], Stream(qs[1..]), Records.Record(q.message, q.version, q.sequence, []));
    }
  }

  // ----- the invariant

  /** What both ends must settle on, the client offering 1 and 2. */
  function Agreed(s: Setup): nat { if ServerMax(s.host.serverMax) >= 2 then VERSION2 else VERSION1 }

  ghost predicate Sound(q: Queued, s: Setup) {
    Records.Encodable(q.message, q.version, q.sequence, s.host.limits)
  }

  /** The client's first record is AUTH, its second CLIENT_HELLO, the rest its traffic. */
  ghost predicate PlacedForHost(q: Queued, s: Setup) {
    && Sound(q, s)
    && q.sequence >= 1
    && (q.sequence == 1 ==> q.message == Auth(VERSION1, s.token) && q.version == VERSION1)
    && (q.sequence == 2 ==> q.message == ClientHello(VERSION1, VERSION2, 0) && q.version == VERSION1)
    && (q.sequence >= 3 ==> ClientTraffic(q.message) && q.version == Agreed(s))
  }

  /** The host's first record is SERVER_HELLO, unless it was busy, its second
      DISPLAY_CONFIG, the rest its traffic. */
  ghost predicate PlacedForClient(q: Queued, s: Setup) {
    && Sound(q, s)
    && q.sequence >= 1
    && (q.sequence == 1 ==>
          || (q.message == BUSY && q.version == VERSION1)
          || (q.message == ServerHello(Agreed(s), 0) && q.version == Agreed(s)))
    && (q.sequence == 2 ==> q.message.Display?)
    && (q.sequence >= 2 ==> HostTraffic(q.message) && q.version == Agreed(s))
  }

  ghost predicate Numbered(qs: seq<Queued>, first: nat) {
    forall k :: 0 <= k < |qs| ==> qs[k].sequence == first + k
  }

  ghost predicate HostInvariant(p: Pair, qs: seq<Queued>, s: Setup) {
    p.host.phase.HostEnded? ||
    (&& HostVouches(p.host, s.host)
     && (p.host.phase.Serving? ==> p.host.phase.version == Agreed(s))
     && (p.host.phase.AwaitHello? ==> p.host.phase.token == s.token)
     && (p.host.phase.Serving? ==> p.host.phase.token == s.token)
     && p.toHost == Stream(qs)
     && Numbered(qs, p.host.end.receiver.sequence + 1)
     && (forall k :: 0 <= k < |qs| ==> PlacedForHost(qs[k], s))
     && p.client.end.sent == p.host.end.receiver.sequence + |qs|)
  }

  ghost predicate ClientShape(c: Client, v: nat) {
    var start := Fresh(ClientRole, true);
    match c.phase
    case SendAuth => c.end == start
    case SendHello => c.end == start.(state := Negotiating, sent := 1)
    case AwaitAnswer =>
      c.end == start.(state := Negotiating, clientHelloSeen := true, sent := 2,
                      receiver := Records.Receiver(0, VERSION1, VERSION2))
    case AwaitDisplay =>
      c.end == start.(state := Negotiating, clientHelloSeen := true, serverHelloSeen := true, sent := 2,
                      sendVersion := v, receiver := Records.Receiver(1, v, v))
    case Running =>
      && c.end.role == ClientRole && c.end.tls && (c.end.state == Active || c.end.state == Closed)
      && c.end.sent >= 2 && c.end.sendVersion == v
      && c.end.receiver.sequence >= 2 && c.end.receiver.minVersion == v && c.end.receiver.maxVersion == v
    case ClientEnded => true
  }

  ghost predicate ClientInvariant(p: Pair, qs: seq<Queued>, s: Setup) {
    p.client.phase.ClientEnded? ||
    (&& ClientShape(p.client, Agreed(s))
     && p.toClient == Stream(qs)
     && Numbered(qs, p.client.end.receiver.sequence + 1)
     && (forall k :: 0 <= k < |qs| ==> PlacedForClient(qs[k], s))
     && p.host.end.sent == p.client.end.receiver.sequence + |qs|)
  }

  ghost predicate Joined(p: Pair, toHost: seq<Queued>, toClient: seq<Queued>, s: Setup, steps: nat) {
    && HostInvariant(p, toHost, s)
    && ClientInvariant(p, toClient, s)
    && (p.client.end.sent >= 3 ==> p.host.end.sent >= 2)
    && p.client.end.sent <= steps && p.host.end.sent <= steps
  }

  ghost predicate Proper(s: Setup) {
    |s.token| == 32 && s.host.limits == Bounded(s.host.limits)
  }

  // ----- reading the head of a stream

  /** Numbered, sound and inside the window: the head record is decoded whole. */
  lemma HeadDecodes(e: Endpoint, qs: seq<Queued>, s: Setup)
    requires qs != [] && Sound(qs[0], s) && qs[0].sequence == e.receiver.sequence + 1
    requires e.receiver.minVersion <= qs[0].version <= e.receiver.maxVersion
    ensures Records.DecodeRecord(e.receiver, Stream(qs), s.host.limits) == Ok((qs[0].message, Stream(qs[1..])))
  {
    hide Records.Record, Records.DecodeRecord, Records.Encodable;
    Records.DecodeOfRecord(e.receiver, qs[0].message, qs[0].version, qs[0].sequence, Stream(qs[1..]), s.host.limits);
  }

  function Accepting(e: Endpoint, m: Message): Endpoint {
    Advance(e.(receiver := Records.Advance(e.receiver)), TypeOf(m), Incoming)
  }

  ghost predicate HostListens(p: Pair) {
    p.host.phase.AwaitAuth? || p.host.phase.AwaitHello? || (p.host.phase.Serving? && p.host.end.state.Active?)
  }

  lemma HostReceives(p: Pair, qs: seq<Queued>, s: Setup)
    requires HostInvariant(p, qs, s) && HostListens(p) && qs != []
    ensures Receive(p.host.end, p.toHost, s.host.limits)
            == (Accepting(p.host.end, qs[0].message), Ok((qs[0].message, Stream(qs[1..]))))
  {
    hide Records.Record, Records.DecodeRecord, Records.Encodable, TokenAccepted, Negotiate, Stream;
    assert PlacedForHost(qs[0], s);
    HeadDecodes(p.host.end, qs, s);
  }

  ghost predicate ClientListens(p: Pair) {
    p.client.phase.AwaitAnswer? || p.client.phase.AwaitDisplay?
    || (p.client.phase.Running? && p.client.end.state.Active?)
  }

  lemma ClientReceives(p: Pair, qs: seq<Queued>, s: Setup)
    requires ClientInvariant(p, qs, s) && ClientListens(p) && qs != []
    ensures Receive(p.client.end, p.toClient, s.host.limits)
            == (Accepting(p.client.end, qs[0].message), Ok((qs[0].message, Stream(qs[1..]))))
  {
    hide Records.Record, Records.DecodeRecord, Records.Encodable, Stream;
    assert PlacedForClient(qs[0], s);
    HeadDecodes(p.client.end, qs, s);
  }

  // ----- writing at the tail of a stream

  function Enqueued(qs: seq<Queued>, e: Endpoint, m: Message, limits: Limits): seq<Queued> {
    if Send(e, m, limits).1.Some? then qs else qs + [Queued(m, e.sendVersion, e.sent + 1)]
  }

  lemma StreamOfEnqueued(qs: seq<Queued>, e: Endpoint, m: Message, limits: Limits)
    ensures Stream(Enqueued(qs, e, m, limits)) == Stream(qs) + Written(e, m, limits)
    ensures Send(e, m, limits).0.sent == e.sent + (|Enqueued(qs, e, m, limits)| - |qs|)
  {
    hide Records.Record, Stream, GateError, DirectionError, Records.EncodeError;
    if Send(e, m, limits).1.Some? {
      assert Stream(qs) + [] == Stream(qs);
    } else {
      StreamAppends(qs, Queued(m, e.sendVersion, e.sent + 1));
    }
  }

  /** A client send that is refused or well placed keeps the host's side of the invariant. */
  lemma ClientSends(p: Pair, after: Pair, qs: seq<Queued>, m: Message, s: Setup)
    requires HostInvariant(p, qs, s) && after.host == p.host
    requires after.toHost == p.toHost + Written(p.client.end, m, s.host.limits)
    requires after.client.end.sent == Send(p.client.end, m, s.host.limits).0.sent
    requires Send(p.client.end, m, s.host.limits).1 == None
             ==> PlacedForHost(Queued(m, p.client.end.sendVersion, p.client.end.sent + 1), s)
    ensures HostInvariant(after, Enqueued(qs, p.client.end, m, s.host.limits), s)
  {
    hide Send, Written, Stream, HostVouches, PlacedForHost;
    StreamOfEnqueued(qs, p.client.end, m, s.host.limits);
  }

  lemma HostSends(p: Pair, after: Pair, qs: seq<Queued>, m: Message, s: Setup)
    requires ClientInvariant(p, qs, s) && after.client == p.client
    requires after.toClient == p.toClient + Written(p.host.end, m, s.host.limits)
    requires after.host.end.sent == Send(p.host.end, m, s.host.limits).0.sent
    requires Send(p.host.end, m, s.host.limits).1 == None
             ==> PlacedForClient(Queued(m, p.host.end.sendVersion, p.host.end.sent + 1), s)
    ensures ClientInvariant(after, Enqueued(qs, p.host.end, m, s.host.limits), s)
  {
    hide Send, Written, Stream, ClientShape, PlacedForClient;
    StreamOfEnqueued(qs, p.host.end, m, s.host.limits);
  }

  /** What a successful send implies. */
  lemma SendAccepts(e: Endpoint, m: Message, s: Setup)
    requires Proper(s) && Codec.Typed(m) && e.sendVersion <= VERSION2 && e.sent < U64_MAX
    ensures Send(e, m, s.host.limits).1 == None
            ==> && Sound(Queued(m, e.sendVersion, e.sent + 1), s)
                && GateError(e, TypeOf(m)) == None
                && Send(e, m, s.host.limits).0 == Advance(e.(sent := e.sent + 1), TypeOf(m), Outgoing)
    ensures Send(e, m, s.host.limits).1.Some?
            ==> Send(e, m, s.host.limits).0 == e || Send(e, m, s.host.limits).0 == Shut(e)
    ensures GateError(e, TypeOf(m)).Some? ==> Send(e, m, s.host.limits).0 == e
    ensures e.sent <= Send(e, m, s.host.limits).0.sent <= e.sent + 1
  {
    hide GateError, DirectionError, Records.EncodeError, Codec.Typed;
  }

  // ----- each step keeps the ends joined

  lemma ClientProceedsJoined(p: Pair, toHost: seq<Queued>, toClient: seq<Queued>, s: Setup, n: nat)
      returns (queue: seq<Queued>)
    requires Joined(p, toHost, toClient, s, n) && Proper(s) && n < U64_MAX
    ensures Joined(Step(p, ClientProceeds, s), queue, toClient, s, n + 1)
  {
    hide Send, Written, Stream, HostVouches, Sound, Records.EncodeError;
    var after := Step(p, ClientProceeds, s);
    match p.client.phase
    case SendAuth =>
      var m := Auth(VERSION1, s.token);
      SendAccepts(p.client.end, m, s);
      ClientSends(p, after, toHost, m, s);
      queue := Enqueued(toHost, p.client.end, m, s.host.limits);
    case SendHello =>
      var m := ClientHello(VERSION1, VERSION2, 0);
      SendAccepts(p.client.end, m, s);
      ClientSends(p, after, toHost, m, s);
      queue := Enqueued(toHost, p.client.end, m, s.host.limits);
    case _ =>
      queue := toHost;
      assert p.toHost + [] == p.toHost;
  }

  /** Input and heartbeats pass the state check only on an Active endpoint, and leave it so. */
  lemma TrafficNeedsActive(e: Endpoint, m: Message)
    requires ClientTraffic(m)
    ensures GateError(e, TypeOf(m)) == None ==> e.state == Active
    ensures Advance(e.(sent := e.sent + 1), TypeOf(m), Outgoing) == e.(sent := e.sent + 1)
  {
  }

  lemma ClientWritesJoined(p: Pair, m: Message, toHost: seq<Queued>, toClient: seq<Queued>, s: Setup, n: nat)
      returns (queue: seq<Queued>)
    requires Joined(p, toHost, toClient, s, n) && Proper(s) && n < U64_MAX && Codec.Typed(m)
    ensures Joined(Step(p, ClientWrites(m), s), queue, toClient, s, n + 1)
    ensures queue == if p.client.phase.ClientEnded? || !ClientTraffic(m) then toHost
                     else Enqueued(toHost, p.client.end, m, s.host.limits)
  {
    hide Send, Written, Stream, HostVouches, Sound, Records.EncodeError, Codec.Typed, GateError, Advance, ClientTraffic;
    var after := Step(p, ClientWrites(m), s);
    queue := toHost;
    if p.client.phase.ClientEnded? || !ClientTraffic(m) {
      assert p.toHost + [] == p.toHost;
    } else {
      SendAccepts(p.client.end, m, s);
      TrafficNeedsActive(p.client.end, m);
      ClientSends(p, after, toHost, m, s);
      queue := Enqueued(toHost, p.client.end, m, s.host.limits);
    }
  }

  lemma HostWritesJoined(p: Pair, m: Message, toHost: seq<Queued>, toClient: seq<Queued>, s: Setup, n: nat)
      returns (queue: seq<Queued>)
    requires Joined(p, toHost, toClient, s, n) && Proper(s) && n < U64_MAX && Codec.Typed(m)
    ensures Joined(Step(p, HostWrites(m), s), toHost, queue, s, n + 1)
    ensures queue == if !p.host.phase.Serving? || !HostTraffic(m) then toClient
                     else Enqueued(toClient, p.host.end, m, s.host.limits)
  {
    hide Send, Written, Stream, Sound, Records.EncodeError, Codec.Typed, TokenAccepted, Negotiate;
    var after := Step(p, HostWrites(m), s);
    queue := toClient;
    if !p.host.phase.Serving? || !HostTraffic(m) {
      assert p.toClient + [] == p.toClient;
    } else {
      SendAccepts(p.host.end, m, s);
      HostSends(p, after, toClient, m, s);
      queue := Enqueued(toClient, p.host.end, m, s.host.limits);
    }
  }

  lemma RestStaysPlaced(qs: seq<Queued>, first: nat, s: Setup)
    requires qs != [] && Numbered(qs, first)
    ensures Numbered(qs[1..], first + 1)
    ensures (forall k :: 0 <= k < |qs| ==> PlacedForHost(qs[k], s))
            ==> forall k :: 0 <= k < |qs| - 1 ==> PlacedForHost(qs[1..][k], s)
    ensures (forall k :: 0 <= k < |qs| ==> PlacedForClient(qs[k], s))
            ==> forall k :: 0 <= k < |qs| - 1 ==> PlacedForClient(qs[1..][k], s)
  {
    hide PlacedForHost, PlacedForClient;
    forall k | 0 <= k < |qs| - 1 ensures qs[1..][k] == qs[k + 1] {
    }
  }

  lemma EmptyStream(qs: seq<Queued>)
    ensures qs == [] ==> Stream(qs) == []
  {
  }

  /** A closed endpoint lets nothing in. */
  lemma ReceiveBasics(e: Endpoint, stream: seq<byte>, limits: Limits)
    ensures Receive(e, stream, limits).0.sent == e.sent
    ensures e.state == Closed ==> Receive(e, stream, limits).1.Err?
  {
    hide Records.DecodeRecord, DirectionError;
  }

  /** Taking the head off the client's stream. */
  lemma ClientTakes(p: Pair, after: Pair, qs: seq<Queued>, s: Setup)
    requires ClientInvariant(p, qs, s) && ClientListens(p) && qs != []
    requires after.host == p.host && after.toClient == Stream(qs[1..])
    requires after.client.end.receiver.sequence == p.client.end.receiver.sequence + 1
    requires ClientShape(after.client, Agreed(s))
    ensures ClientInvariant(after, qs[1..], s)
  {
    hide Stream, PlacedForClient, ClientShape;
    RestStaysPlaced(qs, p.client.end.receiver.sequence + 1, s);
  }

  lemma ClientReadsJoined(p: Pair, handled: bool, toHost: seq<Queued>, toClient: seq<Queued>, s: Setup, n: nat)
      returns (queue: seq<Queued>)
    requires Joined(p, toHost, toClient, s, n) && Proper(s)
    ensures Joined(Step(p, ClientReads(handled), s), toHost, queue, s, n + 1)
    ensures p.toClient != [] && ClientListens(p) && !Step(p, ClientReads(handled), s).client.phase.ClientEnded? ==>
              toClient != [] && queue == toClient[1..]
  {
    hide Receive, Stream, HostVouches, Sound, ClientInvariant;
    var after := Step(p, ClientReads(handled), s);
    ReceiveBasics(p.client.end, p.toClient, s.host.limits);
    queue := toClient;
    if after.client.phase.ClientEnded? {
      assert ClientInvariant(after, queue, s) by { EndedClient(after, queue, s); }
    } else if p.toClient != [] && ClientListens(p) {
      queue := ClientReadsOne(p, handled, toClient, s);
    } else {
      assert p.client.phase.Running? ==> p.toClient == [] by { ClosedEnds(p, toClient, s); }
    }
  }

  lemma EndedClient(p: Pair, qs: seq<Queued>, s: Setup)
    requires p.client.phase.ClientEnded?
    ensures ClientInvariant(p, qs, s)
  {
  }

  lemma ClosedEnds(p: Pair, qs: seq<Queued>, s: Setup)
    requires ClientInvariant(p, qs, s)
    ensures p.client.phase.Running? && !ClientListens(p) ==> p.client.end.state == Closed
  {
    hide Stream, PlacedForClient;
  }

  lemma ClientReadsOne(p: Pair, handled: bool, qs: seq<Queued>, s: Setup) returns (queue: seq<Queued>)
    requires ClientInvariant(p, qs, s) && p.toClient != [] && ClientListens(p)
    ensures ClientInvariant(Step(p, ClientReads(handled), s), queue, s) && qs != [] && queue == qs[1..]
  {
    hide Receive, Stream, Sound, ClientInvariant, PlacedForClient;
    var after := Step(p, ClientReads(handled), s);
    HeadFact(p, qs, s);
    ClientReceives(p, qs, s);
    queue := qs[1..];
    if after.client.phase.ClientEnded? {
      EndedClient(after, queue, s);
    } else {
      ClientShapeKept(p, handled, qs, s);
      ClientTakes(p, after, qs, s);
    }
  }

  lemma HeadFact(p: Pair, qs: seq<Queued>, s: Setup)
    requires ClientInvariant(p, qs, s) && p.toClient != [] && ClientListens(p)
    ensures qs != [] && PlacedForClient(qs[0], s) && qs[0].sequence == p.client.end.receiver.sequence + 1
    ensures ClientShape(p.client, Agreed(s))
  {
    hide PlacedForClient;
    EmptyStream(qs);
  }

  lemma ClientShapeKept(p: Pair, handled: bool, qs: seq<Queued>, s: Setup)
    requires ClientShape(p.client, Agreed(s)) && p.toClient != [] && ClientListens(p)
    requires qs != [] && PlacedForClient(qs[0], s) && qs[0].sequence == p.client.end.receiver.sequence + 1
    requires Receive(p.client.end, p.toClient, s.host.limits)
             == (Accepting(p.client.end, qs[0].message), Ok((qs[0].message, Stream(qs[1..]))))
    ensures var after := Step(p, ClientReads(handled), s);
            !after.client.phase.ClientEnded? ==>
              && ClientShape(after.client, Agreed(s)) && after.toClient == Stream(qs[1..])
              && after.client.end.receiver.sequence == p.client.end.receiver.sequence + 1
  {
    hide Receive, Stream, Sound;
  }

  /** Taking the head off the host's stream. */
  lemma HostTakes(p: Pair, after: Pair, qs: seq<Queued>, s: Setup)
    requires HostInvariant(p, qs, s) && HostListens(p) && qs != []
    requires after.client == p.client && after.toHost == Stream(qs[1..])
    requires after.host.end.receiver.sequence == p.host.end.receiver.sequence + 1
    requires HostVouches(after.host, s.host)
    requires after.host.phase.Serving? ==> after.host.phase.version == Agreed(s) && after.host.phase.token == s.token
    requires after.host.phase.AwaitHello? ==> after.host.phase.token == s.token
    ensures HostInvariant(after, qs[1..], s)
  {
    hide Stream, PlacedForHost, HostVouches;
    RestStaysPlaced(qs, p.host.end.receiver.sequence + 1, s);
  }

  lemma HostHeadFact(p: Pair, qs: seq<Queued>, s: Setup)
    requires HostInvariant(p, qs, s) && p.toHost != [] && HostListens(p)
    ensures qs != [] && PlacedForHost(qs[0], s) && qs[0].sequence == p.host.end.receiver.sequence + 1
    ensures HostVouches(p.host, s.host)
  {
    hide PlacedForHost, HostVouches;
    EmptyStream(qs);
  }

  /** AUTH arrives first; a wrong token or a taken slot ends the session. */
  lemma HostAuthenticates(p: Pair, admitted: bool, handled: bool, toHost: seq<Queued>, toClient: seq<Queued>,
                          s: Setup, n: nat)
      returns (queue: seq<Queued>, answer: seq<Queued>)
    requires Joined(p, toHost, toClient, s, n) && Proper(s) && n < U64_MAX
    requires p.toHost != [] && p.host.phase.AwaitAuth?
    ensures Joined(Step(p, HostReads(admitted, handled), s), queue, answer, s, n + 1)
  {
    hide Receive, Send, Written, Stream, Sound, Records.EncodeError, TokenAccepted, Codec.Typed,
         ClientInvariant, PlacedForHost, ClientShape;
    var after := Step(p, HostReads(admitted, handled), s);
    HostHeadFact(p, toHost, s);
    HostReceives(p, toHost, s);
    AuthComesFirst(toHost[0], s);
    queue, answer := toHost[1..], toClient;
    var next := Accepting(p.host.end, toHost[0].message);
    if !TokenAccepted(s.token, s.host.token) {
      assert p.toClient + [] == p.toClient;
      ClientUnmoved(p, after, toClient, s);
    } else if admitted {
      assert p.toClient + [] == p.toClient;
      ClientUnmoved(p, after, toClient, s);
      HostTakes(p, after, toHost, s);
    } else {
      var heard := p.(host := p.host.(end := next));
      BusyIsTyped();
      SendAccepts(next, BUSY, s);
      BusyIsPlaced(next, s);
      ClientUnmoved(p, heard, toClient, s);
      HostSends(heard, after, toClient, BUSY, s);
      answer := Enqueued(toClient, next, BUSY, s.host.limits);
    }
  }

  lemma AuthComesFirst(q: Queued, s: Setup)
    requires PlacedForHost(q, s)
    ensures q.sequence == 1 ==> q.message == Auth(VERSION1, s.token)
    ensures q.sequence == 2 ==> q.message == ClientHello(VERSION1, VERSION2, 0)
  {
    hide Sound;
  }

  lemma BusyIsPlaced(e: Endpoint, s: Setup)
    ensures e.sent == 0 && e.sendVersion == VERSION1 && Sound(Queued(BUSY, e.sendVersion, e.sent + 1), s)
            ==> PlacedForClient(Queued(BUSY, e.sendVersion, e.sent + 1), s)
  {
    hide Sound;
  }

  /** What the host does without writing is nothing to the client. */
  lemma ClientUnmoved(p: Pair, after: Pair, qs: seq<Queued>, s: Setup)
    requires ClientInvariant(p, qs, s)
    requires after.client == p.client && after.toClient == p.toClient && after.host.end.sent == p.host.end.sent
    ensures ClientInvariant(after, qs, s)
  {
    hide PlacedForClient, ClientShape, Stream;
  }

  /** CLIENT_HELLO arrives second; the host agrees, pins both directions and answers. */
  lemma HostGreets(p: Pair, admitted: bool, handled: bool, toHost: seq<Queued>, toClient: seq<Queued>,
                   s: Setup, n: nat)
      returns (queue: seq<Queued>, answer: seq<Queued>)
    requires Joined(p, toHost, toClient, s, n) && Proper(s) && n < U64_MAX
    requires p.toHost != [] && p.host.phase.AwaitHello?
    ensures Joined(Step(p, HostReads(admitted, handled), s), queue, answer, s, n + 1)
  {
    hide Receive, Send, Written, Stream, Sound, Records.EncodeError, TokenAccepted, Codec.Typed,
         ClientInvariant, PlacedForHost, ClientShape;
    var after := Step(p, HostReads(admitted, handled), s);
    HostHeadFact(p, toHost, s);
    HostReceives(p, toHost, s);
    AuthComesFirst(toHost[0], s);
    queue := toHost[1..];
    var pinned := PinBoth(Accepting(p.host.end, toHost[0].message), Agreed(s));
    var m := ServerHello(Agreed(s), 0);
    var heard := p.(host := p.host.(end := pinned));
    HelloIsTyped(s);
    SendAccepts(pinned, m, s);
    AnswerIsPlaced(pinned, s);
    ClientUnmoved(p, heard, toClient, s);
    HostSends(heard, after, toClient, m, s);
    answer := Enqueued(toClient, pinned, m, s.host.limits);
    if after.host.phase.Serving? {
      HostTakes(p, after, toHost, s);
    }
  }

  lemma HelloIsTyped(s: Setup)
    ensures Codec.Typed(ServerHello(Agreed(s), 0))
  {
  }

  lemma AnswerIsPlaced(e: Endpoint, s: Setup)
    ensures var q := Queued(ServerHello(Agreed(s), 0), e.sendVersion, e.sent + 1);
            e.sent == 0 && e.sendVersion == Agreed(s) && Sound(q, s) ==> PlacedForClient(q, s)
  {
    hide Sound;
  }

  lemma HostServes(p: Pair, admitted: bool, handled: bool, toHost: seq<Queued>, toClient: seq<Queued>,
                   s: Setup, n: nat)
      returns (queue: seq<Queued>)
    requires Joined(p, toHost, toClient, s, n) && Proper(s)
    requires p.toHost != [] && p.host.phase.Serving? && p.host.end.state == Active
    ensures Joined(Step(p, HostReads(admitted, handled), s), queue, toClient, s, n + 1)
    ensures toHost != [] && queue == toHost[1..]
  {
    hide Receive, Stream, Sound, TokenAccepted, Negotiate, ClientInvariant, ClientShape;
    var after := Step(p, HostReads(admitted, handled), s);
    HostHeadFact(p, toHost, s);
    HostReceives(p, toHost, s);
    queue := toHost[1..];
    assert p.toClient + [] == p.toClient;
    ClientUnmoved(p, after, toClient, s);
    if !after.host.phase.HostEnded? {
      HostTakes(p, after, toHost, s);
    }
  }

  lemma BusyIsTyped()
    ensures Codec.Typed(BUSY)
  {
  }

  // ----- every run

  /** The caller hands over only values its types can hold. */
  ghost predicate Permitted(a: Action) {
    match a
    case ClientWrites(m) => Codec.Typed(m)
    case HostWrites(m) => Codec.Typed(m)
    case _ => true
  }

  lemma StartJoined(s: Setup)
    ensures Joined(START, [], [], s, 0)
  {
    assert Stream([]) == [];
  }

  lemma StepJoined(p: Pair, a: Action, toHost: seq<Queued>, toClient: seq<Queued>, s: Setup, n: nat)
      returns (h: seq<Queued>, c: seq<Queued>)
    requires Joined(p, toHost, toClient, s, n) && Proper(s) && n < U64_MAX && Permitted(a)
    ensures Joined(Step(p, a, s), h, c, s, n + 1)
  {
    h, c := toHost, toClient;
    match a {
      case ClientProceeds => hide *; h := ClientProceedsJoined(p, toHost, toClient, s, n);
      case ClientReads(handled) => hide *; c := ClientReadsJoined(p, handled, toHost, toClient, s, n);
      case ClientWrites(m) => hide Step, Joined, Codec.Typed; h := ClientWritesJoined(p, m, toHost, toClient, s, n);
      case HostWrites(m) => hide Step, Joined, Codec.Typed; c := HostWritesJoined(p, m, toHost, toClient, s, n);
      case HostReads(admitted, handled) =>
        hide Receive, HostInvariant, ClientInvariant;
        if p.toHost != [] && p.host.phase.AwaitAuth? {
          hide Step;
          h, c := HostAuthenticates(p, admitted, handled, toHost, toClient, s, n);
        } else if p.toHost != [] && p.host.phase.AwaitHello? {
          hide Step;
          h, c := HostGreets(p, admitted, handled, toHost, toClient, s, n);
        } else if p.toHost != [] && HostListens(p) {
          hide Step;
          h := HostServes(p, admitted, handled, toHost, toClient, s, n);
        } else {
          assert p.toClient + [] == p.toClient;
        }
    }
  }

  lemma {:induction false} StaysJoined(actions: seq<Action>, s: Setup)
      returns (toHost: seq<Queued>, toClient: seq<Queued>)
    requires Proper(s) && |actions| <= U64_MAX && forall k :: 0 <= k < |actions| ==> Permitted(actions[k])
    ensures Joined(Run(actions, s), toHost, toClient, s, |actions|)
    decreases |actions|
  {
    hide Step, Joined, Permitted;
    if actions == [] {
      StartJoined(s);
      toHost, toClient := [], [];
    } else {
      var h, c := StaysJoined(actions[..|actions| - 1], s);
      toHost, toClient :=
        StepJoined(Run(actions[..|actions| - 1], s), actions[|actions| - 1], h, c, s, |actions| - 1);
    }
  }

  /** Establishment over byte streams: in every interleaving of a client and a host, with
      other threads trying to send at any moment, nothing that reaches a listening end is
      refused: not by the version window, the numbering, the direction or the state. */
  lemma HonestEndsRefuseNothing(actions: seq<Action>, s: Setup)
    requires Proper(s) && |actions| <= U64_MAX && forall k :: 0 <= k < |actions| ==> Permitted(actions[k])
    ensures var p := Run(actions, s);
            && (HostListens(p) && p.toHost != [] ==> Receive(p.host.end, p.toHost, s.host.limits).1.Ok?)
            && (ClientListens(p) && p.toClient != [] ==> Receive(p.client.end, p.toClient, s.host.limits).1.Ok?)
  {
    hide Receive, Run, Stream, HostVouches, ClientShape, PlacedForHost, PlacedForClient;
    var p := Run(actions, s);
    var toHost, toClient := StaysJoined(actions, s);
    EmptyStream(toHost);
    EmptyStream(toClient);
    if HostListens(p) && p.toHost != [] {
      HostReceives(p, toHost, s);
    }
    if ClientListens(p) && p.toClient != [] {
      ClientReceives(p, toClient, s);
    }
  }

  /** A running client and the host it runs against are pinned, both ways, to the version
      the two windows agree on, and the client's token was the right one. */
  lemma BothEndsPinned(actions: seq<Action>, s: Setup)
    requires Proper(s) && |actions| <= U64_MAX && forall k :: 0 <= k < |actions| ==> Permitted(actions[k])
    ensures var p, v := Run(actions, s), Agreed(s);
            && Negotiate(VERSION1, VERSION2, VERSION1, ServerMax(s.host.serverMax)) == Ok(v)
            && (p.client.phase.Running? ==>
                  p.client.end.sendVersion == p.client.end.receiver.minVersion == p.client.end.receiver.maxVersion == v)
            && (p.client.phase.Running? && !p.host.phase.HostEnded? ==>
                  && p.host.phase.Serving? && p.host.end.state == Active
                  && TokenAccepted(s.token, s.host.token)
                  && p.host.end.sendVersion == p.host.end.receiver.minVersion == p.host.end.receiver.maxVersion == v)
  {
    hide Run, Stream, PlacedForHost, PlacedForClient, TokenAccepted;
    var toHost, toClient := StaysJoined(actions, s);
  }

  // ----- a session does come about

  /** The limits leave room for the four messages of the exchange, and the token is right. */
  ghost predicate CanEstablish(s: Setup, d: DisplayConfig) {
    && Proper(s) && TokenAccepted(s.token, s.host.token)
    && Codec.Typed(Display(d))
    && Records.EncodeError(Auth(VERSION1, s.token), VERSION1, s.host.limits) == None
    && Records.EncodeError(ClientHello(VERSION1, VERSION2, 0), VERSION1, s.host.limits) == None
    && Records.EncodeError(ServerHello(Agreed(s), 0), Agreed(s), s.host.limits) == None
    && Records.EncodeError(Display(d), Agreed(s), s.host.limits) == None
  }

  function Greetings(s: Setup): seq<Queued> {
    [Queued(Auth(VERSION1, s.token), VERSION1, 1), Queued(ClientHello(VERSION1, VERSION2, 0), VERSION1, 2)]
  }

  function Answer(s: Setup): Queued { Queued(ServerHello(Agreed(s), 0), Agreed(s), 1) }

  function Config(s: Setup, d: DisplayConfig): Queued { Queued(Display(d), Agreed(s), 2) }

  lemma ExchangeIsSound(s: Setup, d: DisplayConfig)
    requires CanEstablish(s, d)
    ensures Sound(Greetings(s)[0], s) && Sound(Greetings(s)[1], s) && Sound(Answer(s), s) && Sound(Config(s, d), s)
  {
    hide Records.EncodeError, TokenAccepted;
  }

  lemma GreetingsSent(s: Setup, d: DisplayConfig)
    requires CanEstablish(s, d)
    ensures var p := Step(Step(START, ClientProceeds, s), ClientProceeds, s);
            && p.host == START.host && p.toClient == [] && p.toHost == Stream(Greetings(s))
            && p.client.phase == AwaitAnswer && ClientShape(p.client, Agreed(s))
  {
    hide Records.Record, Records.EncodeError, TokenAccepted, Codec.Typed;
    var qs := Greetings(s);
    assert Stream([qs[1]]) == Records.Record(qs[1].message, qs[1].version, 2, []);
    assert qs[1..] == [qs[1]];
    RecordAppends(qs[0], [], Stream(qs[1..]));
    assert [] + Stream(qs[1..]) == Stream(qs[1..]);
  }

  lemma HostHears(p: Pair, s: Setup, d: DisplayConfig)
    requires CanEstablish(s, d)
    requires p.host == START.host && p.toClient == [] && p.toHost == Stream(Greetings(s))
    ensures var after := Step(Step(p, HostReads(true, true), s), HostReads(true, true), s);
            && after.client == p.client && after.toClient == Stream([Answer(s)])
            && after.host.phase.Serving? && ServingEnd(after.host.end, Agreed(s)) && after.host.end.state == Negotiating
  {
    hide Records.Record, Records.EncodeError, Records.DecodeRecord, TokenAccepted, Codec.Typed;
    var qs := Greetings(s);
    assert qs[1..] == [qs[1]];
    var q := Step(p, HostReads(true, true), s);
    ExchangeIsSound(s, d);
    Records.RecordIsNotEmpty(qs[0].message, 1, 1, Stream(qs[1..]));
    Records.RecordIsNotEmpty(qs[1].message, 1, 2, []);
    HeadDecodes(p.host.end, qs, s);
    HeadDecodes(q.host.end, qs[1..], s);
    assert Stream([Answer(s)]) == Records.Record(ServerHello(Agreed(s), 0), Agreed(s), 1, []);
  }

  lemma ClientHears(p: Pair, s: Setup, d: DisplayConfig)
    requires CanEstablish(s, d)
    requires p.client.phase == AwaitAnswer && ClientShape(p.client, Agreed(s)) && p.toClient == Stream([Answer(s)])
    requires p.host.phase.Serving? && ServingEnd(p.host.end, Agreed(s)) && p.host.end.state == Negotiating
    ensures var after := Step(Step(Step(p, ClientReads(true), s), HostWrites(Display(d)), s), ClientReads(true), s);
            after.client.phase == Running && after.client.end.state == Active && after.host.end.state == Active
            && after.host.phase.Serving?
  {
    hide Records.Record, Records.EncodeError, Records.DecodeRecord, TokenAccepted, Codec.Typed;
    var q := Step(p, ClientReads(true), s);
    ExchangeIsSound(s, d);
    Records.RecordIsNotEmpty(ServerHello(Agreed(s), 0), Agreed(s), 1, []);
    HeadDecodes(p.client.end, [Answer(s)], s);
    assert q.toClient == [];
    var r := Step(q, HostWrites(Display(d)), s);
    Records.RecordIsNotEmpty(Display(d), Agreed(s), 2, []);
    assert r.toClient == Stream([Config(s, d)]);
    HeadDecodes(r.client.end, [Config(s, d)], s);
  }

  /** With the right token and room for the messages, the plain exchange ends with both
      ends Active. */
  lemma SessionEstablishes(s: Setup, d: DisplayConfig)
    requires CanEstablish(s, d)
    ensures var p := Run([ClientProceeds, ClientProceeds, HostReads(true, true), HostReads(true, true),
                          ClientReads(true), HostWrites(Display(d)), ClientReads(true)], s);
            && p.client.phase == Running && p.client.end.state == Active
            && p.host.phase.Serving? && p.host.end.state == Active
  {
    hide Step, CanEstablish, ClientShape, ServingEnd, Stream, Answer;
    var greeted := Step(Step(START, ClientProceeds, s), ClientProceeds, s);
    GreetingsSent(s, d);
    HostHears(greeted, s, d);
    var heard := Step(Step(greeted, HostReads(true, true), s), HostReads(true, true), s);
    ClientHears(heard, s, d);
    var actions := [ClientProceeds, ClientProceeds, HostReads(true, true), HostReads(true, true),
                    ClientReads(true), HostWrites(Display(d)), ClientReads(true)];
    RunOf(actions, s, 6);
    RunOf(actions, s, 5);
    RunOf(actions, s, 4);
    RunOf(actions, s, 3);
    RunOf(actions, s, 2);
    RunOf(actions, s, 1);
    RunOf(actions, s, 0);
    assert actions[..7] == actions && actions[..0] == [];
  }

  lemma RunOf(actions: seq<Action>, s: Setup, k: nat)
    requires k < |actions|
    ensures Run(actions[..k + 1], s) == Step(Run(actions[..k], s), actions[k], s)
  {
    assert actions[..k + 1][..k] == actions[..k];
  }
}
