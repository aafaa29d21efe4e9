/** The connection object both ends drive, the host's session slot, and the host's
    acceptance of one connection. */
module Peer {
  import opened Types
  import opened Messages
  import opened Records
  import H = Handshake
  import S = Session

  class Peer {
    const role: H.Role
    const tls: bool
    const encoder: Encoder
    const decoder: Decoder
    var state: H.State
    var clientHelloSeen: bool
    var serverHelloSeen: bool
    var connected: bool

    ghost predicate Valid()
      reads this
    {
      encoder.limits == decoder.limits == Bounded(decoder.limits) && (state == H.Closed ==> !connected)
    }

    /** Whether the connection is still there after a call that found it as `before` says. */
    ghost predicate StillConnected(before: bool)
      reads this
    {
      connected == (before && state != H.Closed)
    }

    function Model(): H.Endpoint
      reads this, encoder, decoder
    {
      H.Endpoint(role, tls, state, clientHelloSeen, serverHelloSeen,
                 encoder.sequence, encoder.version, decoder.Model())
    }

    /** `stream` is everything the remote end will ever write. */
    constructor (role: H.Role, tls: bool, limits: Limits, stream: seq<byte>)
      ensures Valid() && Model() == H.Fresh(role, tls) && encoder.limits == Bounded(limits)
      ensures connected && encoder.written == [] && decoder.unread == stream && fresh(encoder) && fresh(decoder)
    {
      this.role, this.tls := role, tls;
      var e := new Encoder(limits);
      var d := new Decoder(limits, stream);
      encoder, decoder := e, d;
      state, clientHelloSeen, serverHelloSeen, connected := H.Authenticating, false, false, true;
    }

    method Close()
      modifies this`state, this`connected
      ensures Model() == H.Shut(old(Model())) && !connected
    {
      state, connected := H.Closed, false;
    }

    /** Closes the connection under the peer, whose own state stays as it was. */
    method Hangup()
      modifies this`connected
      ensures !connected
    {
      connected := false;
    }

    method SetVersionWindow(min: nat, max: nat)
      modifies decoder
      ensures Model() == H.Widen(old(Model()), min, max) && decoder.unread == old(decoder.unread)
    {
      decoder.SetVersionWindow(min, max);
    }

    method PinVersion(v: nat)
      modifies encoder, decoder
      ensures Model() == H.PinBoth(old(Model()), v)
      ensures decoder.unread == old(decoder.unread) && encoder.written == old(encoder.written)
    {
      encoder.PinVersion(v);
      decoder.PinVersion(v);
    }

    /** The state check. The message type is all it looks at. */
    method ValidateState(t: nat) returns (err: Option<Error>)
      ensures err == H.GateError(Model(), t)
      ensures err == None ==> state != H.Closed
    {
      if t == 1 && !tls {
        return Some(TlsRequired);
      }
      err := H.StateError(state, t);
      if err.Some? || state != H.Negotiating {
        return;
      }
      match t {
        case 2 =>
          if clientHelloSeen { return Some(BadState); }
        case 3 =>
          if !clientHelloSeen || serverHelloSeen { return Some(BadState); }
        case 4 =>
          if !clientHelloSeen || !serverHelloSeen { return Some(BadState); }
        case 14 =>
        case 15 =>
        case _ =>
          return Some(BadState);
      }
      return None;
    }

    method Advance(t: nat, flow: H.Flow)
      modifies this
      ensures connected == old(connected)
      ensures old(state) != H.Closed ==> state != H.Closed
      ensures Model() == H.Advance(old(Model()), t, flow)
    {
      match t {
        case 1 =>
          if (role == H.ClientRole && flow == H.Outgoing) || (role == H.HostRole && flow == H.Incoming) {
            state := H.Negotiating;
          }
        case 2 => clientHelloSeen := true;
        case 3 => serverHelloSeen := true;
        case 4 =>
          if (role == H.HostRole && flow == H.Outgoing) || (role == H.ClientRole && flow == H.Incoming) {
            state := H.Active;
          }
        case 15 => state := H.Closing;
        case _ =>
      }
    }

    method Send(m: Message) returns (err: Option<Error>)
      requires Valid()
      modifies this, encoder
      ensures Valid() && StillConnected(old(connected))
      ensures err == None ==> state != H.Closed
      ensures (Model(), err) == H.Send(old(Model()), m, encoder.limits)
      ensures encoder.written == old(encoder.written) + H.Written(old(Model()), m, encoder.limits)
    {
      hide EncodeError, Record, H.GateError, H.Advance;
      assert encoder.written + [] == encoder.written;
      err := H.DirectionError(role, H.Outgoing, TypeOf(m));
      if err.Some? {
        return;
      }
      err := ValidateState(TypeOf(m));
      if err.Some? {
        return;
      }
      err := encoder.Encode(m);
      if err.Some? {
        Close();
        return;
      }
      Advance(TypeOf(m), H.Outgoing);
    }

    method Receive() returns (r: Result<Message, Error>)
      requires Valid()
      modifies this, decoder
      ensures Valid() && StillConnected(old(connected))
      ensures r.Ok? ==> state != H.Closed
      ensures match H.Receive(old(Model()), old(decoder.unread), decoder.limits)
              case (after, Err(e)) => Model() == after && r == Err(e)
              case (after, Ok((m, rest))) => Model() == after && r == Ok(m) && decoder.unread == rest
    {
      hide DecodeRecord, H.GateError, H.Advance;
      r := decoder.Decode();
      if r.Err? {
        Close();
        return;
      }
      var m := r.value;
      var err := H.DirectionError(role, H.Incoming, TypeOf(m));
      if err == None {
        GateIgnoresReceiver();
        err := ValidateState(TypeOf(m));
      }
      if err.Some? {
        Close();
        return Err(err.value);
      }
      Advance(TypeOf(m), H.Incoming);
    }

    /** The gate does not look at the record counters. */
    lemma GateIgnoresReceiver()
      ensures forall e: H.Endpoint, t ::
                e.(receiver := Model().receiver) == Model() ==> H.GateError(e, t) == H.GateError(Model(), t)
    {
    }

    method AuthenticateHost(expected: seq<byte>) returns (r: Result<Message, Error>)
      requires Valid()
      modifies this, decoder
      ensures Valid() && StillConnected(old(connected))
      ensures r.Ok? ==> state != H.Closed
      ensures match S.AuthenticateHost(old(Model()), old(decoder.unread), expected, decoder.limits)
              case (after, Err(e)) => Model() == after && r == Err(e)
              case (after, Ok((m, rest))) => Model() == after && r == Ok(m) && decoder.unread == rest
    {
      hide H.Receive;
      if role != H.HostRole {
        return Err(AuthenticationFailed);
      }
      if !tls {
        Close();
        return Err(TlsRequired);
      }
      r := Receive();
      if r.Err? {
        return Err(AuthenticationFailed);
      }
      var m := r.value;
      if !m.Auth? || m.version != VERSION1 {
        Close();
        return Err(AuthenticationFailed);
      }
      if m.token == S.NO_TOKEN {
        Close();
        return Err(AuthenticationFailed);
      }
      if expected == S.NO_TOKEN {
        return;
      }
      if m.token != expected {
        Close();
        return Err(AuthenticationFailed);
      }
    }

    method AcceptHello(serverMax: nat) returns (r: Result<nat, Error>)
      requires Valid()
      modifies this, encoder, decoder
      ensures Valid() && StillConnected(old(connected))
      ensures match S.AcceptHello(old(Model()), old(decoder.unread), serverMax, decoder.limits)
              case (after, written, Err(e)) =>
                Model() == after && r == Err(e) && encoder.written == old(encoder.written) + written
              case (after, written, Ok((_, v, rest))) =>
                Model() == after && r == Ok(v) && encoder.written == old(encoder.written) + written
                && decoder.unread == rest
    {
      hide H.Receive, H.Send, H.Written;
      assert encoder.written + [] == encoder.written;
      var max := if serverMax == 0 then VERSION1 else serverMax;
      var hello := Receive();
      if hello.Err? {
        return Err(hello.error);
      }
      var m := hello.value;
      if !m.ClientHello? {
        return Err(UnexpectedMessage);
      }
      r := H.Negotiate(m.minVersion, m.maxVersion, VERSION1, max);
      if r.Err? {
        return;
      }
      PinVersion(r.value);
      var err := Send(ServerHello(r.value, 0));
      if err.Some? {
        return Err(err.value);
      }
    }

    /** The client's half: offer both versions, accept either envelope, then pin. */
    method Greet() returns (r: Result<nat, Error>)
      requires Valid()
      modifies this, encoder, decoder
      ensures Valid() && StillConnected(old(connected))
      ensures var (greeted, err) := H.Send(old(Model()), ClientHello(VERSION1, VERSION2, 0), decoder.limits);
              if err.Some? then Model() == greeted && r == Err(err.value)
              else match S.AcceptAnswer(H.Widen(greeted, VERSION1, VERSION2), old(decoder.unread), decoder.limits)
                   case (after, Err(e)) => Model() == after && r == Err(e)
                   case (after, Ok((v, rest))) => Model() == after && r == Ok(v) && decoder.unread == rest
      ensures encoder.written
              == old(encoder.written) + H.Written(old(Model()), ClientHello(VERSION1, VERSION2, 0), decoder.limits)
    {
      hide H.Receive, H.Send, H.Written;
      var err := Send(ClientHello(VERSION1, VERSION2, 0));
      if err.Some? {
        return Err(err.value);
      }
      SetVersionWindow(VERSION1, VERSION2);
      var answer := Receive();
      if answer.Err? {
        return Err(answer.error);
      }
      var m := answer.value;
      if !m.ServerHello? {
        return Err(UnexpectedMessage);
      }
      r := H.Negotiate(VERSION1, VERSION2, m.version, m.version);
      if r.Err? {
        return;
      }
      PinVersion(r.value);
    }
  }

  // ----- the single session slot

  /** Each admission is handed a release that works once. */
  class Admissions {
    var open: bool
    var released: seq<bool>

    /** The slot is taken exactly while some admission has not been released, and never two
        admissions are outstanding. */
    ghost predicate Valid()
      reads this
    {
      && (open <==> exists k :: 0 <= k < |released| && !released[k])
      && forall i, j :: 0 <= i < j < |released| ==> released[i] || released[j]
    }

    constructor ()
      ensures Valid() && !open && released == []
    {
      open, released := false, [];
    }

    method Acquire() returns (admitted: Option<nat>)
      requires Valid()
      modifies this
      ensures Valid()
      ensures old(open) ==> admitted == None && open && released == old(released)
      ensures !old(open) ==> open && admitted == Some(|old(released)|) && released == old(released) + [false]
    {
      if open {
        return None;
      }
      open := true;
      released := released + [false];
      assert !released[|released| - 1];
      return Some(|released| - 1);
    }

    /** Releasing twice, or after someone else was admitted, frees nobody else's slot. */
    method Release(ticket: nat)
      requires Valid() && ticket < |released|
      modifies this
      ensures Valid() && released == old(released)[ticket := true]
      ensures open == (old(open) && old(released)[ticket])
    {
      if !released[ticket] {
        released := released[ticket := true];
        open := false;
      }
    }
  }

  /** One connection's establishment on the host: authenticate, take the slot or say busy,
      exchange HELLO. The slot is held and the connection kept exactly when the session was
      established. */
  method Accept(peer: Peer, admissions: Admissions, token: seq<byte>, serverMax: nat)
    returns (version: Result<nat, Error>, ticket: Option<nat>)
    requires peer.Valid() && admissions.Valid()
    modifies peer, peer.encoder, peer.decoder, admissions
    ensures admissions.Valid() && peer.Valid()
    ensures version.Err? ==> !peer.connected
    ensures version.Ok? ==> peer.StillConnected(old(peer.connected))
    ensures ticket.Some? <==> version.Ok?
    ensures var c := S.HostConfig(token, serverMax, peer.decoder.limits);
            var (first, rest, written) := S.HostReads(S.Host(old(peer.Model()), S.AwaitAuth), old(peer.decoder.unread),
                                                      !old(admissions.open), true, c);
            if first.phase.HostEnded? then
              && version.Err? && peer.Model() == first.end
                 && peer.encoder.written == old(peer.encoder.written) + written
            else
              var (second, _, answer) := S.HostReads(first, rest, true, true, c);
              && peer.Model() == second.end && peer.encoder.written == old(peer.encoder.written) + answer
              && (second.phase.HostEnded? <==> version.Err?)
              && (version.Ok? ==> second.phase.Serving? && second.phase.version == version.value)
    ensures version.Ok? ==> !old(admissions.open) && admissions.open
    ensures version.Err? ==> admissions.open == old(admissions.open)
    ensures ticket.Some? ==> admissions.released == old(admissions.released) + [false]
                             && ticket.value == |old(admissions.released)|
  {
    hide S.AuthenticateHost, S.AcceptHello, H.Send, H.Written;
    ticket := None;
    assert peer.encoder.written + [] == peer.encoder.written;
    var auth := peer.AuthenticateHost(token);
    if auth.Err? {
      peer.Hangup();
      return Err(auth.error), None;
    }
    ticket := admissions.Acquire();
    if ticket == None {
      var err := peer.Send(S.BUSY);
      peer.Hangup();
      return Err(if err.Some? then err.value else Busy), None;
    }
    version := peer.AcceptHello(serverMax);
    if version.Err? {
      admissions.Release(ticket.value);
      peer.Hangup();
      ticket := None;
    }
  }
}
