/** What either end of the joined session answers to what it reads. */
module Replies {
  import opened Types
  import opened Messages
  import opened Validation
  import Host
  import CS = ClientState
  import Transitions
  import Verdicts
  import opened Link

  /** Whether a message of eight bytes may be sent. */
  predicate RoomForEight(limits: Limits) {
    8 <= Bounded(limits).maxControlPayload
  }

  lemma EightBytes(nonce: nat, generation: nat, limits: Limits)
    ensures MessageError(Ping(nonce), limits) == None <==> RoomForEight(limits)
    ensures MessageError(Pong(nonce), limits) == None <==> RoomForEight(limits)
    ensures 0 < generation ==> (MessageError(KeyframeRequest(generation), limits) == None <==> RoomForEight(limits))
  {
    hide Bounded;
    Verdicts.ControlExactly(Ping(nonce), limits);
    Verdicts.ControlExactly(Pong(nonce), limits);
    Verdicts.ControlExactly(KeyframeRequest(generation), limits);
  }

  /** The host answers a PING with its own nonce behind everything it sent before, ends the
      session over input it refuses, and sends nothing for anything else. */
  lemma HostAnswers(l: Session, now: int, c: Host.Setup)
    requires l.up != []
    ensures var l', m := Handle(l, now, c), l.up[0];
            var r := Host.HandleInput(l.host, m, now, c).1;
            && l'.up == l.up[1..] && l'.host == Host.HandleInput(l.host, m, now, c).0
            && l'.down == (if m.Ping? && RoomForEight(c.limits) then l.down + [Pong(m.nonce)] else l.down)
            && l'.live == (l.live && (m.Ping? ==> RoomForEight(c.limits)) && r != Host.Refused && r != Host.AcceptedOutside)
  {
    hide MessageError, RoomForEight;
    if l.up[0].Ping? {
      EightBytes(l.up[0].nonce, 1, c.limits);
    }
  }

  /** The framebuffer event a message stands for. */
  predicate Means(m: Message, e: CS.Event) {
    match m
    case Display(c) => e == CS.Configure(c)
    case WholeFrame(f) => e == CS.Apply(f)
    case Part(p) => e == CS.ApplyPart(p)
    case _ => false
  }

  /** Once the first display is there, the client answers a PING with its own nonce. */
  lemma ClientAnswers(l: Session, client: CS.Setup)
    requires l.down != [] && CS.Inv(l.screen, client) && l.phase != Greeting
    ensures var l', m := Receive(l, client), l.down[0];
            && (m.Ping? ==>
                  l' == l.(down := l.down[1..], live := l.live && RoomForEight(client.limits),
                           up := if RoomForEight(client.limits) then l.up + [Pong(m.nonce)] else l.up))
            && (m.Pong? ==> l' == l.(down := l.down[1..]))
  {
    hide MessageError, RoomForEight, CS.Step, CS.Inv;
    if l.down[0].Ping? {
      EightBytes(l.down[0].nonce, 1, client.limits);
    }
  }

  /** What the framebuffer gets is followed by a request for a keyframe of the client's own
      generation when that is what a frame or part lacks, by news for the input when it took a
      display, and by the end of the session when it rejected anything else. */
  lemma ClientAsks(l: Session, e: CS.Event, client: CS.Setup)
    requires l.down != [] && CS.Inv(l.screen, client) && l.phase != Greeting && Means(l.down[0], e)
    ensures var l', m := Receive(l, client), l.down[0];
            var (screen, out) := CS.Step(l.screen, e, client);
            var asks := !m.Display? && out == CS.Rejected(KeyframeRequired);
            && l'.down == l.down[1..] && l'.host == l.host && l'.screen == screen
            && l'.up == (if asks && RoomForEight(client.limits) then l.up + [KeyframeRequest(screen.generation)] else l.up)
            && l'.live == (l.live && (if asks then RoomForEight(client.limits) else !out.Rejected?))
            && l'.input == if m.Display? && !out.Rejected?
                           then l.input.(generation := m.config.generation, width := m.config.width,
                                         height := m.config.height)
                           else l.input
  {
    hide MessageError, RoomForEight, CS.Step;
    if !l.down[0].Display? && CS.Step(l.screen, e, client).1 == CS.Rejected(KeyframeRequired) {
      OnlyConfigured(l.screen, e, client);
      EightBytes(0, CS.Step(l.screen, e, client).0.generation, client.limits);
    }
  }

  /** Only a configured framebuffer can lack a keyframe. */
  lemma OnlyConfigured(s: CS.State, e: CS.Event, client: CS.Setup)
    requires CS.Inv(s, client) && !e.Configure? && CS.Step(s, e, client).1 == CS.Rejected(KeyframeRequired)
    ensures 0 < CS.Step(s, e, client).0.generation
  {
    hide CS.Step;
    CS.StepKeepsInvariant(s, e, client);
    if s.generation == 0 {
      NeverRequired(s, e, client);
    }
  }

  lemma NeverRequired(s: CS.State, e: CS.Event, client: CS.Setup)
    requires CS.Inv(s, client) && !e.Configure? && s.generation == 0
    ensures CS.Step(s, e, client).1 != CS.Rejected(KeyframeRequired)
  {
    hide CS.Step, ListError, Bounded;
    match e
    case Apply(f) =>
      var n, error := Transitions.FrameExactly(s, f, client);
      ListKinds(f.rectangles, 0, Bounded(client.limits));
    case ApplyPart(p) =>
      Transitions.PartRefused(s, p, client);
      ListKinds(p.rectangles, 0, Bounded(client.limits));
  }

  lemma ListKinds(rs: seq<Rectangle>, from: nat, limits: Limits)
    requires from <= |rs|
    ensures ListError(rs, from, limits) != Some(KeyframeRequired)
  {
    hide ListError;
    if ListError(rs, from, limits).Some? {
      Transitions.ListErrorKinds(rs, from, limits);
    }
  }
}
