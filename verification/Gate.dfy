/** Which messages get through at each point of a connection, and what each end's script says. */
module Gate {
  import opened Types
  import opened Messages
  import opened Validation
  import opened Handshake
  import Records
  import Session
  import Verdicts

  // ----- directions

  /** The types each side may send: AUTH, CLIENT_HELLO, requests and input are the client's,
      SERVER_HELLO, displays and frames the host's, heartbeats, ERROR and CLOSE anybody's. */
  predicate MaySend(client: bool, t: nat) {
    t in {12, 13, 14, 15} || t in (if client then {1, 2, 6, 7, 8, 9, 10, 11} else {3, 4, 5, 16})
  }

  lemma DirectionExactly(role: Role, flow: Flow, t: nat)
    ensures DirectionError(role, flow, t)
            == if MaySend((role == ClientRole) == (flow == Outgoing), t) then None else Some(WrongDirection)
  {
  }

  // ----- the exchange

  predicate Passes(e: Endpoint, t: nat, flow: Flow) {
    DirectionError(e.role, flow, t) == None && GateError(e, t) == None
  }

  /** Why a message in the right direction does not get through, and when two windows are not. */
  lemma RefusalsExactly(e: Endpoint, t: nat, clientMin: nat, clientMax: nat, serverMin: nat, serverMax: nat)
    ensures GateError(e, t).Some? ==> GateError(e, t) == Some(if t == 1 && !e.tls then TlsRequired else BadState)
    ensures Negotiate(clientMin, clientMax, serverMin, serverMax) == Err(Malformed)
            <==> !(1 <= clientMin <= clientMax && 1 <= serverMin <= serverMax)
  {
  }

  /** After any calls and whatever bytes arrived, a message gets through an endpoint exactly when
      its sender may send it and it is ERROR or CLOSE on a connection not closed, or, on one not
      closing either, the next of the four establishment messages, or any session message once
      those four are through. */
  lemma LetThroughExactly(role: Role, tls: bool, ops: seq<Op>, t: nat, flow: Flow, limits: Limits)
    ensures var (e, transcript) := RunOps(Fresh(role, tls), ops, limits);
            var client := (role == ClientRole) == (flow == Outgoing);
            && e.role == role
            && (Passes(e, t, flow)
                <==> && MaySend(client, t) && e.state != Closed
                     && (|| t == 14 || t == 15
                         || (e.state != Closing
                             && if |transcript| < 4 then Entry(client, t) == ESTABLISHMENT[|transcript|] && (t == 1 ==> tls)
                                else 4 <= t)))
  {
    hide RunOps;
    EstablishedInOrder(role, tls, ops, limits);
    KeepsRole(role, tls, ops, limits);
    var (e, transcript) := RunOps(Fresh(role, tls), ops, limits);
    if |transcript| < 4 {
      assert transcript <= ESTABLISHMENT;
    }
  }

  lemma {:induction false} KeepsRole(role: Role, tls: bool, ops: seq<Op>, limits: Limits)
    ensures RunOps(Fresh(role, tls), ops, limits).0.role == role
    decreases |ops|
  {
    if ops != [] {
      KeepsRole(role, tls, ops[..|ops| - 1], limits);
      StepKeepsRole(RunOps(Fresh(role, tls), ops[..|ops| - 1], limits).0, ops[|ops| - 1], limits);
    }
  }

  lemma StepKeepsRole(e: Endpoint, op: Op, limits: Limits)
    ensures Perform(e, op, limits).0.role == e.role
  {
    hide GateError, DirectionError, Records.EncodeError, Records.DecodeRecord;
  }

  /** The endpoint after some calls, and everything that was let through, ERROR and CLOSE too. */
  function History(e: Endpoint, ops: seq<Op>, limits: Limits): (Endpoint, seq<Entry>)
    decreases |ops|
  {
    if ops == [] then (e, [])
    else
      var (before, entries) := History(e, ops[..|ops| - 1], limits);
      var (after, next) := Perform(before, ops[|ops| - 1], limits);
      (after, entries + next)
  }

  /** Closing or closed. */
  predicate Over(e: Endpoint) { e.state == Closing || e.state == Closed }

  lemma StepAtTheEnd(e: Endpoint, op: Op, limits: Limits)
    ensures var (after, entries) := Perform(e, op, limits);
            && |entries| <= 1
            && (entries != [] && entries[0].kind == 15 ==> after.state == Closing)
            && (Over(e) ==> Over(after) && (entries != [] ==> entries[0].kind == 14 || entries[0].kind == 15))
            && (e.state == Closed ==> after.state == Closed && entries == [])
  {
    hide DirectionError, Records.EncodeError, Records.DecodeRecord;
  }

  ghost predicate QuietAfterClose(e: Endpoint, entries: seq<Entry>) {
    && ((exists i :: 0 <= i < |entries| && entries[i].kind == 15) ==> Over(e))
    && (forall i, j :: 0 <= i < j < |entries| && entries[i].kind == 15 ==>
          entries[j].kind == 14 || entries[j].kind == 15)
  }

  /** The end of a connection: whatever is called and whatever arrives, once a CLOSE went either
      way only ERROR and CLOSE get through, and after the connection is closed nothing does. */
  lemma {:induction false} NothingAfterClose(e: Endpoint, ops: seq<Op>, limits: Limits)
    ensures QuietAfterClose(History(e, ops, limits).0, History(e, ops, limits).1)
    decreases |ops|
  {
    hide Perform;
    if ops != [] {
      var (before, entries) := History(e, ops[..|ops| - 1], limits);
      NothingAfterClose(e, ops[..|ops| - 1], limits);
      StepAtTheEnd(before, ops[|ops| - 1], limits);
      var (after, next) := Perform(before, ops[|ops| - 1], limits);
      var all := entries + next;
      if exists i :: 0 <= i < |all| && all[i].kind == 15 {
        var i :| 0 <= i < |all| && all[i].kind == 15;
        assert i < |entries| ==> entries[i].kind == 15;
      }
    }
  }

  /** A send: refused by its direction or by the state without any trace; refused by the encoder,
      which closes the connection and writes nothing; or written as the next record. */
  lemma SendExactly(e: Endpoint, m: Message, limits: Limits)
    ensures var (after, err) := Send(e, m, limits);
            var refused := Records.EncodeError(m, e.sendVersion, limits);
            if !MaySend(e.role == ClientRole, TypeOf(m)) then
              after == e && err == Some(WrongDirection) && Written(e, m, limits) == []
            else if GateError(e, TypeOf(m)).Some? then
              after == e && err == GateError(e, TypeOf(m)) && Written(e, m, limits) == []
            else if refused.Some? then
              after == e.(state := Closed) && err == refused && Written(e, m, limits) == []
            else
              && err == None && after.sent == e.sent + 1 && after.sendVersion == e.sendVersion
              && after.receiver == e.receiver
              && Written(e, m, limits) == Records.Record(m, e.sendVersion, e.sent + 1, [])
  {
    hide Records.EncodeError, Records.Record, GateError;
    DirectionExactly(e.role, Outgoing, TypeOf(m));
  }

  /** A receive: any refusal closes the connection, one of an unreadable record without counting
      it; otherwise the message, and the record is counted. */
  lemma ReceiveExactly(e: Endpoint, stream: seq<byte>, limits: Limits)
    ensures var d := Records.DecodeRecord(e.receiver, stream, limits);
            var (after, r) := Receive(e, stream, limits);
            if d.Err? then after == e.(state := Closed) && r == Err(d.error)
            else
              var t := TypeOf(d.value.0);
              && after.receiver == e.receiver.(sequence := e.receiver.sequence + 1)
              && after.sent == e.sent && after.sendVersion == e.sendVersion
              && (if !MaySend(e.role != ClientRole, t) then after.state == Closed && r == Err(WrongDirection)
                  else if GateError(e, t).Some? then after.state == Closed && r == Err(GateError(e, t).value)
                  else r == Ok(d.value))
  {
    hide Records.DecodeRecord, GateError;
    var d := Records.DecodeRecord(e.receiver, stream, limits);
    if d.Ok? {
      DirectionExactly(e.role, Incoming, TypeOf(d.value.0));
    }
  }

  // ----- tokens

  ghost predicate AllZero(token: seq<byte>) {
    |token| == 32 && forall k :: 0 <= k < 32 ==> token[k] == 0
  }

  lemma ZeroToken(token: seq<byte>)
    ensures token == Session.NO_TOKEN <==> AllZero(token)
  {
  }

  /** The first thing a host takes from the wire: a first record holding an AUTH whose token is
      not all zeros and is the host's own, if the host has one. */
  lemma AuthenticatedExactly(stream: seq<byte>, expected: seq<byte>, limits: Limits)
    ensures var d := Records.DecodeRecord(Records.Receiver(0, 1, 1), stream, limits);
            var (after, r) := Session.AuthenticateHost(Fresh(HostRole, true), stream, expected, limits);
            if d.Ok? && d.value.0.Auth? && d.value.0.version == 1 && !AllZero(d.value.0.token)
               && (AllZero(expected) || d.value.0.token == expected)
            then
              && r == Ok(d.value)
              && after == Fresh(HostRole, true).(state := Negotiating, receiver := Records.Receiver(1, 1, 1))
            else r == Err(AuthenticationFailed) && after.state == Closed
  {
    hide Records.DecodeRecord, Session.NO_TOKEN, AllZero;
    var d := Records.DecodeRecord(Records.Receiver(0, 1, 1), stream, limits);
    ZeroToken(expected);
    if d.Ok? && d.value.0.Auth? {
      ZeroToken(d.value.0.token);
    }
  }

  // ----- the scripts

  lemma {:induction false} AsciiIsText(s: seq<byte>)
    requires forall k :: 0 <= k < |s| ==> s[k] < 0x80
    ensures ValidUtf8(s)
  {
    if s != [] {
      AsciiIsText(s[1..]);
    }
  }

  lemma BusyIsAscii()
    ensures |Session.BUSY.diagnostic| == 40 && forall k :: 0 <= k < 40 ==> Session.BUSY.diagnostic[k] < 0x80
  {
  }

  lemma BusyIsValid(l: Limits)
    ensures |Session.BUSY.diagnostic| == 40
    ensures Records.EncodeError(Session.BUSY, 1, l)
            == if 44 <= Bounded(l).maxControlPayload then None else Some(MessageTooLarge)
  {
    hide ValidUtf8, Bounded;
    BusyIsAscii();
    AsciiIsText(Session.BUSY.diagnostic);
    Verdicts.SizeExactly(Session.BUSY);
  }

  /** A second client, though its token is right, is told ERROR 3 and let go. */
  lemma BusyExactly(stream: seq<byte>, handled: bool, c: Session.HostConfig)
    requires Session.AuthenticateHost(Fresh(HostRole, true), stream, c.token, c.limits).1.Ok?
    ensures var h := Session.Host(Fresh(HostRole, true), Session.AwaitAuth);
            var (h', rest, written) := Session.HostReads(h, stream, false, handled, c);
            && h'.phase == Session.HostEnded && rest == []
            && written == if 44 <= Bounded(c.limits).maxControlPayload
                          then Records.Record(Failure(3, Session.BUSY.diagnostic), 1, 1, []) else []
  {
    hide Records.DecodeRecord, Records.Record, Bounded, Records.EncodeError, Session.BUSY;
    AuthenticatedExactly(stream, c.token, c.limits);
    BusyIsValid(c.limits);
    assert Session.BUSY == Failure(3, Session.BUSY.diagnostic) by { BusyCode(); }
  }

  lemma BusyCode()
    ensures Session.BUSY == Failure(3, Session.BUSY.diagnostic)
  {
  }

  /** The client speaks first: an AUTH with its token, then the versions 1 to 2. */
  lemma GreetingExactly(c: Session.Client, token: seq<byte>, limits: Limits)
    ensures var (c', written) := Session.ClientProceeds(c, token, limits);
            match c.phase
            case SendAuth =>
              && written == Written(c.end, Auth(1, token), limits)
              && (if Send(c.end, Auth(1, token), limits).1 == None then
                    c' == Session.Client(Send(c.end, Auth(1, token), limits).0, Session.SendHello)
                  else c'.phase == Session.ClientEnded && c'.end.state == Closed)
            case SendHello =>
              && written == Written(c.end, ClientHello(1, 2, 0), limits)
              && (if Send(c.end, ClientHello(1, 2, 0), limits).1 == None then
                    && c'.phase == Session.AwaitAnswer
                    && c'.end.receiver.minVersion == 1 && c'.end.receiver.maxVersion == 2
                  else c'.phase == Session.ClientEnded && c'.end.state == Closed)
            case _ => c' == c && written == []
  {
    hide Send, Written;
  }

  /** The host offers version 1 up to the one it is configured for, or 1 alone, and answers an
      agreement in the agreed version, to which it is pinned both ways. */
  lemma AnswerExactly(e: Endpoint, stream: seq<byte>, serverMax: nat, limits: Limits)
    ensures var (after, written, r) := Session.AcceptHello(e, stream, serverMax, limits);
            r.Ok? ==>
              var (m, v, rest) := r.value;
              && m.ClientHello?
              && Negotiate(m.minVersion, m.maxVersion, 1, if serverMax == 0 then 1 else serverMax) == Ok(v)
              && written == Records.Record(ServerHello(v, 0), v, e.sent + 1, [])
              && after.sendVersion == v && after.receiver.minVersion == v && after.receiver.maxVersion == v
              && after.serverHelloSeen
  {
    hide Records.DecodeRecord, Records.Record, Records.EncodeError;
  }

  /** A session goes on through everything but a message that cannot be read, is not handled, or
      says ERROR or CLOSE. */
  lemma SessionGoesOn(h: Session.Host, c: Session.Client, stream: seq<byte>, handled: bool, config: Session.HostConfig)
    requires h.phase.Serving? && h.end.state == Active && c.phase == Session.Running
    ensures var r := Receive(h.end, stream, config.limits).1;
            Session.HostReads(h, stream, true, handled, config).0.phase
            == if r.Ok? && handled && TypeOf(r.value.0) != 14 && TypeOf(r.value.0) != 15 then h.phase else Session.HostEnded
    ensures var r := Receive(c.end, stream, config.limits).1;
            Session.ClientReads(c, stream, handled, config.limits).0.phase
            == if r.Ok? && handled && TypeOf(r.value.0) != 14 && TypeOf(r.value.0) != 15 then Session.Running
               else Session.ClientEnded
  {
    hide Receive;
  }
}
