/** One end of a connection: which messages it may send or accept, and when. */
module Handshake {
  import opened Types
  import opened Messages
  import Records

  datatype Role = ClientRole | HostRole

  datatype Flow = Incoming | Outgoing

  datatype State = Connected | Authenticating | Negotiating | Active | Closing | Closed

  /** What a connection state lets through. */
  function StateError(s: State, t: nat): Option<Error> {
    var valid := match s
      case Connected => false
      case Authenticating => t == 1 || t == 14 || t == 15
      case Negotiating => t == 2 || t == 3 || t == 4 || t == 14 || t == 15
      case Active => 4 <= t <= 16 && t != 1 && t != 2 && t != 3
      case Closing => t == 14 || t == 15
      case Closed => false;
    if valid then None else Some(BadState)
  }

  /** A message travelling in this flow comes from the client. */
  predicate FromClient(role: Role, flow: Flow) {
    (role == ClientRole && flow == Outgoing) || (role == HostRole && flow == Incoming)
  }

  function DirectionError(role: Role, flow: Flow, t: nat): Option<Error> {
    var bidirectional := t == 12 || t == 13 || t == 14 || t == 15;
    var clientOrigin := t == 1 || t == 2 || t == 6 || 7 <= t <= 11;
    var hostOrigin := t == 3 || t == 4 || t == 5 || t == 16;
    if bidirectional || (FromClient(role, flow) && clientOrigin) || (!FromClient(role, flow) && hostOrigin) then None
    else Some(WrongDirection)
  }

  /** The version two windows agree on. */
  function Negotiate(clientMin: nat, clientMax: nat, serverMin: nat, serverMax: nat): Result<nat, Error> {
    if clientMin == 0 || serverMin == 0 || clientMin > clientMax || serverMin > serverMax then Err(Malformed)
    else
      var max := if serverMax < clientMax then serverMax else clientMax;
      var min := if serverMin > clientMin then serverMin else clientMin;
      if min > max then Err(NoCommonVersion)
      else if max != VERSION1 && max != VERSION2 then Err(BadVersion)
      else Ok(max)
  }

  predicate InBoth(v: nat, clientMin: nat, clientMax: nat, serverMin: nat, serverMax: nat) {
    clientMin <= v <= clientMax && serverMin <= v <= serverMax
  }

  /** For proper windows the outcome is settled by the highest version in both: it is chosen
      exactly when it is 1 or 2, and refused as unspoken otherwise, even where a lower common
      version would do; there is none exactly when the windows are disjoint. */
  lemma NegotiatedIsHighestCommon(clientMin: nat, clientMax: nat, serverMin: nat, serverMax: nat, v: nat)
    requires 0 < clientMin <= clientMax && 0 < serverMin <= serverMax
    requires InBoth(v, clientMin, clientMax, serverMin, serverMax)
    requires forall w: nat :: InBoth(w, clientMin, clientMax, serverMin, serverMax) ==> w <= v
    ensures Negotiate(clientMin, clientMax, serverMin, serverMax)
            == if v == VERSION1 || v == VERSION2 then Ok(v) else Err(BadVersion)
  {
    var max := if serverMax < clientMax then serverMax else clientMax;
    assert InBoth(max, clientMin, clientMax, serverMin, serverMax);
  }

  /** Both ends speak version 1, and still they do not agree. */
  lemma SpokenVersionRefused()
    ensures InBoth(VERSION1, 1, 5, 1, 5) && Negotiate(1, 5, 1, 5) == Err(BadVersion)
  {
    NegotiatedIsHighestCommon(1, 5, 1, 5, 5);
  }

  lemma NoCommonVersionExactly(clientMin: nat, clientMax: nat, serverMin: nat, serverMax: nat)
    requires 0 < clientMin <= clientMax && 0 < serverMin <= serverMax
    ensures Negotiate(clientMin, clientMax, serverMin, serverMax) == Err(NoCommonVersion)
            <==> forall w: nat :: !InBoth(w, clientMin, clientMax, serverMin, serverMax)
  {
    var max := if serverMax < clientMax then serverMax else clientMax;
    if Negotiate(clientMin, clientMax, serverMin, serverMax) != Err(NoCommonVersion) {
      assert InBoth(max, clientMin, clientMax, serverMin, serverMax);
    }
  }

  // ----- an endpoint

  /** Connection state, both hello marks, and the record counters and versions. */
  datatype Endpoint =
    Endpoint(role: Role, tls: bool, state: State, clientHelloSeen: bool, serverHelloSeen: bool,
             sent: nat, sendVersion: nat, receiver: Records.Receiver)

  function Fresh(role: Role, tls: bool): Endpoint {
    Endpoint(role, tls, Authenticating, false, false, 0, VERSION1, Records.Receiver(0, VERSION1, VERSION1))
  }

  function Shut(e: Endpoint): Endpoint { e.(state := Closed) }

  function PinBoth(e: Endpoint, v: nat): Endpoint {
    e.(sendVersion := v, receiver := Records.Pin(e.receiver, v))
  }

  function Widen(e: Endpoint, min: nat, max: nat): Endpoint {
    e.(receiver := e.receiver.(minVersion := min, maxVersion := max))
  }

  /** The state check, with the stricter order of the HELLO exchange. */
  function GateError(e: Endpoint, t: nat): Option<Error> {
    if t == 1 && !e.tls then Some(TlsRequired)
    else if StateError(e.state, t).Some? then StateError(e.state, t)
    else if e.state != Negotiating then None
    else if t == 2 then (if e.clientHelloSeen then Some(BadState) else None)
    else if t == 3 then (if !e.clientHelloSeen || e.serverHelloSeen then Some(BadState) else None)
    else if t == 4 then (if !e.clientHelloSeen || !e.serverHelloSeen then Some(BadState) else None)
    else if t == 14 || t == 15 then None
    else Some(BadState)
  }

  function Advance(e: Endpoint, t: nat, flow: Flow): Endpoint {
    if t == 1 then (if FromClient(e.role, flow) then e.(state := Negotiating) else e)
    else if t == 2 then e.(clientHelloSeen := true)
    else if t == 3 then e.(serverHelloSeen := true)
    else if t == 4 then (if FromClient(e.role, flow) then e else e.(state := Active))
    else if t == 15 then e.(state := Closing)
    else e
  }

  /** A message refused by direction or state leaves the endpoint as it was; one refused by
      the encoder closes it. */
  function Send(e: Endpoint, m: Message, limits: Limits): (Endpoint, Option<Error>) {
    var t := TypeOf(m);
    if DirectionError(e.role, Outgoing, t).Some? then (e, DirectionError(e.role, Outgoing, t))
    else if GateError(e, t).Some? then (e, GateError(e, t))
    else if Records.EncodeError(m, e.sendVersion, limits).Some? then
      (Shut(e), Records.EncodeError(m, e.sendVersion, limits))
    else (Advance(e.(sent := e.sent + 1), t, Outgoing), None)
  }

  /** The bytes a send puts on the wire. */
  function Written(e: Endpoint, m: Message, limits: Limits): seq<byte> {
    if Send(e, m, limits).1.Some? then [] else Records.Record(m, e.sendVersion, e.sent + 1, [])
  }

  /** The next message and the bytes after it. Any refusal closes the endpoint. */
  function Receive(e: Endpoint, stream: seq<byte>, limits: Limits)
    : (Endpoint, Result<(Message, seq<byte>), Error>)
  {
    match Records.DecodeRecord(e.receiver, stream, limits)
    case Err(error) => (Shut(e), Err(error))
    case Ok((m, rest)) =>
      var after := e.(receiver := Records.Advance(e.receiver));
      var t := TypeOf(m);
      if DirectionError(e.role, Incoming, t).Some? then (Shut(after), Err(DirectionError(e.role, Incoming, t).value))
      else if GateError(e, t).Some? then (Shut(after), Err(GateError(e, t).value))
      else (Advance(after, t, Incoming), Ok((m, rest)))
  }

  // ----- whatever the caller and the remote end do

  /** One call on an endpoint; a receive brings whatever bytes the remote end chose. */
  datatype Op =
    | SendOp(message: Message)
    | ReceiveOp(stream: seq<byte>)
    | PinOp(version: nat)
    | WindowOp(min: nat, max: nat)
    | CloseOp

  /** A message let through: who it came from, and its type. */
  datatype Entry = Entry(fromClient: bool, kind: nat)

  function Perform(e: Endpoint, op: Op, limits: Limits): (Endpoint, seq<Entry>) {
    match op
    case SendOp(m) =>
      var (after, err) := Send(e, m, limits);
      (after, if err.Some? then [] else [Entry(FromClient(e.role, Outgoing), TypeOf(m))])
    case ReceiveOp(stream) =>
      var (after, r) := Receive(e, stream, limits);
      (after, if r.Err? then [] else [Entry(FromClient(e.role, Incoming), TypeOf(r.value.0))])
    case PinOp(v) => (PinBoth(e, v), [])
    case WindowOp(min, max) => (Widen(e, min, max), [])
    case CloseOp => (Shut(e), [])
  }

  /** ERROR and CLOSE may come at almost any time and are no part of the exchange. */
  function Milestone(entries: seq<Entry>): seq<Entry> {
    if |entries| == 1 && (entries[0].kind == 14 || entries[0].kind == 15) then [] else entries
  }

  /** The endpoint after some calls, and what was let through but ERROR and CLOSE. */
  function RunOps(e: Endpoint, ops: seq<Op>, limits: Limits): (Endpoint, seq<Entry>)
    decreases |ops|
  {
    if ops == [] then (e, [])
    else
      var (before, transcript) := RunOps(e, ops[..|ops| - 1], limits);
      var (after, entries) := Perform(before, ops[|ops| - 1], limits);
      (after, transcript + Milestone(entries))
  }

  /** AUTH and CLIENT_HELLO from the client, SERVER_HELLO and DISPLAY_CONFIG from the host. */
  const ESTABLISHMENT: seq<Entry> := [Entry(true, 1), Entry(true, 2), Entry(false, 3), Entry(false, 4)]

  ghost predicate InStep(e: Endpoint, transcript: seq<Entry>) {
    && (transcript <= ESTABLISHMENT || ESTABLISHMENT <= transcript)
    && e.state != Connected
    && (e.state == Authenticating ==> transcript == [] && !e.clientHelloSeen && !e.serverHelloSeen)
    && (e.state == Negotiating ==>
          && 1 <= |transcript| <= 3
          && e.clientHelloSeen == (|transcript| >= 2)
          && e.serverHelloSeen == (|transcript| >= 3))
    && (e.state == Active ==> |transcript| >= 4)
    && (!e.tls ==> transcript == [])
  }

  lemma LetThroughInStep(e: Endpoint, transcript: seq<Entry>, t: nat, flow: Flow)
    requires InStep(e, transcript)
    requires DirectionError(e.role, flow, t) == None && GateError(e, t) == None
    ensures InStep(Advance(e, t, flow), transcript + Milestone([Entry(FromClient(e.role, flow), t)]))
    ensures Advance(e, t, flow).tls == e.tls
  {
    var next := Entry(FromClient(e.role, flow), t);
    if t == 14 || t == 15 {
      assert transcript + [] == transcript;
    } else {
      assert Milestone([next]) == [next];
      if e.state == Negotiating || e.state == Authenticating {
        assert next == ESTABLISHMENT[|transcript|];
        assert ESTABLISHMENT[..|transcript| + 1] == ESTABLISHMENT[..|transcript|] + [next];
      }
    }
  }

  /** Counters and versions do not matter, and a closed endpoint lets nothing through. */
  lemma OtherwiseInStep(e: Endpoint, after: Endpoint, transcript: seq<Entry>)
    requires InStep(e, transcript) && after.tls == e.tls
    requires after.clientHelloSeen == e.clientHelloSeen && after.serverHelloSeen == e.serverHelloSeen
    requires after.state == e.state || after.state == Closed
    ensures InStep(after, transcript)
  {
  }

  lemma StaysInStep(e: Endpoint, transcript: seq<Entry>, op: Op, limits: Limits)
    requires InStep(e, transcript)
    ensures InStep(Perform(e, op, limits).0, transcript + Milestone(Perform(e, op, limits).1))
    ensures Perform(e, op, limits).0.tls == e.tls
  {
    hide GateError, DirectionError, Records.EncodeError, Records.DecodeRecord, Advance, ESTABLISHMENT, InStep,
         Milestone;
    match op
    case SendOp(m) =>
      if Send(e, m, limits).1 == None {
        GateIgnoresCounters(e, e.sent + 1, e.receiver, TypeOf(m));
        OtherwiseInStep(e, e.(sent := e.sent + 1), transcript);
        LetThroughInStep(e.(sent := e.sent + 1), transcript, TypeOf(m), Outgoing);
      } else {
        NothingLetThrough(e, Send(e, m, limits).0, transcript);
      }
    case ReceiveOp(stream) =>
      var r := Receive(e, stream, limits).1;
      if r.Ok? {
        var receiver := Records.Advance(e.receiver);
        GateIgnoresCounters(e, e.sent, receiver, TypeOf(r.value.0));
        OtherwiseInStep(e, e.(receiver := receiver), transcript);
        LetThroughInStep(e.(receiver := receiver), transcript, TypeOf(r.value.0), Incoming);
      } else {
        NothingLetThrough(e, Receive(e, stream, limits).0, transcript);
      }
    case _ =>
      NothingLetThrough(e, Perform(e, op, limits).0, transcript);
  }

  lemma NothingLetThrough(e: Endpoint, after: Endpoint, transcript: seq<Entry>)
    requires InStep(e, transcript) && after.tls == e.tls
    requires after.clientHelloSeen == e.clientHelloSeen && after.serverHelloSeen == e.serverHelloSeen
    requires after.state == e.state || after.state == Closed
    ensures InStep(after, transcript + Milestone([]))
  {
    assert transcript + Milestone([]) == transcript;
  }

  lemma GateIgnoresCounters(e: Endpoint, sent: nat, receiver: Records.Receiver, t: nat)
    ensures GateError(e.(sent := sent, receiver := receiver), t) == GateError(e, t)
  {
  }

  /** Establishment order: whatever is called on an endpoint of either role and whatever
      bytes arrive, it lets nothing through out of order. An Active endpoint has seen AUTH,
      CLIENT_HELLO, SERVER_HELLO and DISPLAY_CONFIG, each from the proper side and in that
      order, before anything else; without TLS it has let nothing through at all. */
  lemma {:induction false} EstablishedInOrder(role: Role, tls: bool, ops: seq<Op>, limits: Limits)
    ensures InStep(RunOps(Fresh(role, tls), ops, limits).0, RunOps(Fresh(role, tls), ops, limits).1)
    ensures RunOps(Fresh(role, tls), ops, limits).0.tls == tls
    ensures RunOps(Fresh(role, tls), ops, limits).0.state == Active
            ==> tls && ESTABLISHMENT <= RunOps(Fresh(role, tls), ops, limits).1
    decreases |ops|
  {
    hide Perform;
    if ops != [] {
      var (before, transcript) := RunOps(Fresh(role, tls), ops[..|ops| - 1], limits);
      EstablishedInOrder(role, tls, ops[..|ops| - 1], limits);
      StaysInStep(before, transcript, ops[|ops| - 1], limits);
    }
  }
}
