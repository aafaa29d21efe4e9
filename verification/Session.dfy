/** Both ends' establishment scripts, and the two of them joined by byte streams. */
module Session {
  import opened Types
  import opened Messages
  import opened Handshake
  import Raster
  import Records

  const NO_TOKEN: seq<byte> := Raster.Zeros(32)

  /** An unset host token admits any client. */
  predicate TokenAccepted(token: seq<byte>, expected: seq<byte>) {
    token != NO_TOKEN && (expected == NO_TOKEN || token == expected)
  }

  /** The host's first read: only an AUTH with the right token gets past it. */
  function AuthenticateHost(e: Endpoint, stream: seq<byte>, expected: seq<byte>, limits: Limits)
    : (Endpoint, Result<(Message, seq<byte>), Error>)
  {
    if e.role != HostRole then (e, Err(AuthenticationFailed))
    else if !e.tls then (Shut(e), Err(TlsRequired))
    else
      var (after, r) := Receive(e, stream, limits);
      match r
      case Err(_) => (after, Err(AuthenticationFailed))
      case Ok((m, rest)) =>
        if m.Auth? && m.version == VERSION1 && TokenAccepted(m.token, expected) then (after, Ok((m, rest)))
        else (Shut(after), Err(AuthenticationFailed))
  }

  function ServerMax(configured: nat): nat { if configured == 0 then VERSION1 else configured }

  /** The host's HELLO: read the client's window, agree, pin, answer. */
  function AcceptHello(e: Endpoint, stream: seq<byte>, serverMax: nat, limits: Limits)
    : (Endpoint, seq<byte>, Result<(Message, nat, seq<byte>), Error>)
  {
    var (after, r) := Receive(e, stream, limits);
    match r
    case Err(error) => (after, [], Err(error))
    case Ok((m, rest)) =>
      if !m.ClientHello? then (after, [], Err(UnexpectedMessage))
      else match Negotiate(m.minVersion, m.maxVersion, VERSION1, ServerMax(serverMax))
           case Err(error) => (after, [], Err(error))
           case Ok(v) =>
             var pinned := PinBoth(after, v);
             var (answered, err) := Send(pinned, ServerHello(v, 0), limits);
             (answered, Written(pinned, ServerHello(v, 0), limits),
              if err.Some? then Err(err.value) else Ok((m, v, rest)))
  }

  /** The client's side of the answer: agree to exactly the offered version, and pin. */
  function AcceptAnswer(e: Endpoint, stream: seq<byte>, limits: Limits)
    : (Endpoint, Result<(nat, seq<byte>), Error>)
  {
    var (after, r) := Receive(e, stream, limits);
    match r
    case Err(error) => (after, Err(error))
    case Ok((m, rest)) =>
      if !m.ServerHello? then (after, Err(UnexpectedMessage))
      else match Negotiate(VERSION1, VERSION2, m.version, m.version)
           case Err(error) => (after, Err(error))
           case Ok(v) => (PinBoth(after, v), Ok((v, rest)))
  }

  // ----- the host's script

  datatype HostPhase =
    | AwaitAuth
    | AwaitHello(token: seq<byte>)
    | Serving(token: seq<byte>, hello: Message, version: nat)
    | HostEnded

  datatype HostConfig = HostConfig(token: seq<byte>, serverMax: nat, limits: Limits)

  datatype Host = Host(end: Endpoint, phase: HostPhase)

  /** The seven-bit codes of a text. */
  function Ascii(text: string): seq<byte> {
    seq(|text|, k requires 0 <= k < |text| => text[k] as int % 128)
  }

  const BUSY := Failure(3, Ascii("another client already holds the session"))

  /** The host reads once. `admitted` says whether the session slot was free; `handled`,
      whether the service took the message. Returns the bytes left and the bytes written. */
  function HostReads(h: Host, stream: seq<byte>, admitted: bool, handled: bool, c: HostConfig)
    : (Host, seq<byte>, seq<byte>)
  {
    match h.phase
    case AwaitAuth =>
      (match AuthenticateHost(h.end, stream, c.token, c.limits)
       case (after, Err(_)) => (Host(after, HostEnded), [], [])
       case (after, Ok((m, rest))) =>
         if admitted then (Host(after, AwaitHello(m.token)), rest, [])
         else (Host(Send(after, BUSY, c.limits).0, HostEnded), [], Written(after, BUSY, c.limits)))
    case AwaitHello(token) =>
      (match AcceptHello(h.end, stream, c.serverMax, c.limits)
       case (after, written, Err(_)) => (Host(after, HostEnded), [], written)
       case (after, written, Ok((m, v, rest))) => (Host(after, Serving(token, m, v)), rest, written))
    case Serving(_, _, _) =>
      if !h.end.state.Active? then (h, stream, [])
      else (match Receive(h.end, stream, c.limits)
            case (after, Err(_)) => (Host(after, HostEnded), [], [])
            case (after, Ok((m, rest))) =>
              if handled && !m.Failure? && !m.Close? then (Host(after, h.phase), rest, [])
              else (Host(after, HostEnded), [], []))
    case HostEnded => (h, stream, [])
  }

  /** Display configurations, frames and heartbeats, from the service. */
  predicate HostTraffic(m: Message) { m.Display? || m.WholeFrame? || m.Part? || m.Ping? || m.Pong? }

  function HostWrites(h: Host, m: Message, c: HostConfig): (Host, seq<byte>) {
    if !h.phase.Serving? || !HostTraffic(m) then (h, [])
    else
      var (after, err) := Send(h.end, m, c.limits);
      (Host(after, if err.Some? then HostEnded else h.phase), Written(h.end, m, c.limits))
  }

  // ----- an arbitrary remote end

  datatype HostStep = Arrives(stream: seq<byte>, admitted: bool, handled: bool) | Writes(message: Message)

  function RunHost(steps: seq<HostStep>, c: HostConfig): Host
    decreases |steps|
  {
    if steps == [] then Host(Fresh(HostRole, true), AwaitAuth)
    else
      var h := RunHost(steps[..|steps| - 1], c);
      match steps[|steps| - 1]
      case Arrives(stream, admitted, handled) => HostReads(h, stream, admitted, handled, c).0
      case Writes(m) => HostWrites(h, m, c).0
  }

  /** What each phase of the host's script vouches for. */
  ghost predicate HostVouches(h: Host, c: HostConfig) {
    match h.phase
    case AwaitAuth => h.end == Fresh(HostRole, true)
    case AwaitHello(token) =>
      && TokenAccepted(token, c.token)
      && h.end == Fresh(HostRole, true).(state := Negotiating, receiver := Records.Receiver(1, VERSION1, VERSION1))
    case Serving(token, hello, v) =>
      && TokenAccepted(token, c.token)
      && hello.ClientHello?
      && Negotiate(hello.minVersion, hello.maxVersion, VERSION1, ServerMax(c.serverMax)) == Ok(v)
      && ServingEnd(h.end, v)
    case HostEnded => true
  }

  /** Pinned both ways, SERVER_HELLO sent first and DISPLAY_CONFIG second. */
  ghost predicate ServingEnd(e: Endpoint, v: nat) {
    && e.role == HostRole && e.tls && e.clientHelloSeen && e.serverHelloSeen
    && e.sendVersion == v && e.receiver.minVersion == v && e.receiver.maxVersion == v
    && e.sent >= 1 && e.receiver.sequence >= 2
    && (e.state == Negotiating ==> e.sent == 1 && e.receiver.sequence == 2)
    && (e.state == Active ==> e.sent >= 2)
    && (e.state == Negotiating || e.state == Active)
  }

  lemma HostReadsVouches(h: Host, stream: seq<byte>, admitted: bool, handled: bool, c: HostConfig)
    requires HostVouches(h, c)
    ensures HostVouches(HostReads(h, stream, admitted, handled, c).0, c)
  {
    hide Records.DecodeRecord, Records.Record, Records.EncodeError, TokenAccepted, Negotiate;
  }

  lemma HostWritesVouches(h: Host, m: Message, c: HostConfig)
    requires HostVouches(h, c)
    ensures HostVouches(HostWrites(h, m, c).0, c)
  {
    hide Records.Record, Records.EncodeError, TokenAccepted, Negotiate;
  }

  /** A host that serves, has authenticated and negotiated: whatever bytes arrive, in
      whatever portions, and whatever the service sends, it accepted an AUTH with the
      right token and a CLIENT_HELLO whose window agrees with its own on the version both
      its directions are pinned to; and it has sent DISPLAY_CONFIG if it is Active. */
  lemma {:induction false} ServingHostIsAuthenticated(steps: seq<HostStep>, c: HostConfig)
    ensures HostVouches(RunHost(steps, c), c)
    decreases |steps|
  {
    hide HostReads, HostWrites, HostVouches;
    if steps == [] {
      assert HostVouches(Host(Fresh(HostRole, true), AwaitAuth), c) by { FreshVouches(c); }
    } else {
      ServingHostIsAuthenticated(steps[..|steps| - 1], c);
      var h := RunHost(steps[..|steps| - 1], c);
      match steps[|steps| - 1]
      case Arrives(stream, admitted, handled) => HostReadsVouches(h, stream, admitted, handled, c);
      case Writes(m) => HostWritesVouches(h, m, c);
    }
  }

  lemma FreshVouches(c: HostConfig)
    ensures HostVouches(Host(Fresh(HostRole, true), AwaitAuth), c)
  {
  }

  // ----- the client's script

  datatype ClientPhase = SendAuth | SendHello | AwaitAnswer | AwaitDisplay | Running | ClientEnded

  datatype Client = Client(end: Endpoint, phase: ClientPhase)

  /** Leaving the script closes the endpoint. */
  function Leave(e: Endpoint): Client { Client(Shut(e), ClientEnded) }

  /** AUTH, then CLIENT_HELLO offering versions 1 and 2, then a receive window for either. */
  function ClientProceeds(c: Client, token: seq<byte>, limits: Limits): (Client, seq<byte>) {
    match c.phase
    case SendAuth =>
      var m := Auth(VERSION1, token);
      var (after, err) := Send(c.end, m, limits);
      (if err.Some? then Leave(after) else Client(after, SendHello), Written(c.end, m, limits))
    case SendHello =>
      var m := ClientHello(VERSION1, VERSION2, 0);
      var (after, err) := Send(c.end, m, limits);
      (if err.Some? then Leave(after) else Client(Widen(after, VERSION1, VERSION2), AwaitAnswer),
       Written(c.end, m, limits))
    case _ => (c, [])
  }

  /** The client reads once; `handled` says whether the display or frame was taken. */
  function ClientReads(c: Client, stream: seq<byte>, handled: bool, limits: Limits): (Client, seq<byte>) {
    match c.phase
    case AwaitAnswer =>
      (match AcceptAnswer(c.end, stream, limits)
       case (after, Err(_)) => (Leave(after), [])
       case (after, Ok((_, rest))) => (Client(after, AwaitDisplay), rest))
    case AwaitDisplay =>
      (match Receive(c.end, stream, limits)
       case (after, Err(_)) => (Leave(after), [])
       case (after, Ok((m, rest))) =>
         if m.Display? && handled then (Client(after, Running), rest) else (Leave(after), []))
    case Running =>
      (match Receive(c.end, stream, limits)
       case (after, Err(_)) => (Leave(after), [])
       case (after, Ok((m, rest))) =>
         if handled && !m.Failure? && !m.Close? then (Client(after, Running), rest) else (Leave(after), []))
    case _ => (c, stream)
  }

  /** Input, keyframe requests and heartbeats, from other threads, at any time. */
  predicate ClientTraffic(m: Message) {
    || m.KeyframeRequest? || m.Key? || m.PointerMove? || m.PointerButton? || m.PointerWheel? || m.FocusLost?
    || m.Ping? || m.Pong?
  }

  function ClientWrites(c: Client, m: Message, limits: Limits): (Client, seq<byte>) {
    if c.phase.ClientEnded? || !ClientTraffic(m) then (c, [])
    else (c.(end := Send(c.end, m, limits).0), Written(c.end, m, limits))
  }
}
