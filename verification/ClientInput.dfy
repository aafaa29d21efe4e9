/** The client's captured input: what is held, what is sent, and what is released. */
module ClientInput {
  import opened Types
  import opened Messages
  import opened Validation

  const DOWN: nat := 1
  const UP: nat := 2

  datatype State =
    State(generation: nat, width: nat, height: nat, sequence: nat, focused: bool, connected: bool,
          hasSender: bool, keys: map<nat, nat>, buttons: set<nat>)

  /** The state after an operation, the messages the sender took, how many more it would
      take, and whether the operation failed. */
  datatype Result = Result(state: State, sent: seq<Message>, left: nat, failed: bool)

  /** A sender that takes the next `accepts` messages and then fails. Every pattern of send
      failures is some `accepts`, because an operation stops at its first failure. */
  datatype Operation =
    | SetSender(present: bool)
    | SetDisplay(generation: nat, width: nat, height: nat)
    | SetFocused(focused: bool)
    | Disconnect
    | Connect
    | PressKey(usage: nat, action: nat, modifiers: nat)
    | PressButton(button: nat, action: nat)
    | MovePointer(x: nat, y: nat)
    | TurnWheel(horizontal: int, vertical: int)

  predicate Active(s: State) {
    s.connected && s.focused && s.generation != 0 && s.width != 0 && s.height != 0 && s.hasSender
  }

  /** Hands one message, numbered next, to the sender. */
  function Send(s: State, m: Message, accepts: nat): (r: Result)
    ensures r.failed ==> r.state == s && r.sent == []
  {
    if !s.hasSender || accepts == 0 then Result(s, [], 0, true)
    else Result(s.(sequence := s.sequence + 1), [m], accepts - 1, false)
  }

  function ValidateAndSend(s: State, m: Message, accepts: nat): (r: Result)
    ensures r.failed ==> r.state == s && r.sent == []
  {
    if MessageError(m, DEFAULT_LIMITS).Some? then Result(s, [], accepts, true) else Send(s, m, accepts)
  }

  function KeyMessage(s: State, usage: nat, action: nat, modifiers: nat): Message {
    Key(s.generation, s.sequence + 1, usage, action, modifiers)
  }

  function ButtonMessage(s: State, button: nat, action: nat): Message {
    PointerButton(s.generation, s.sequence + 1, button, action)
  }

  function Then(first: Result, second: Result): Result {
    Result(second.state, first.sent + second.sent, second.left, second.failed)
  }

  // ----- releasing what is held, in ascending order

  lemma LeastExists(s: set<nat>) returns (m: nat)
    requires s != {}
    ensures m in s && forall x :: x in s ==> m <= x
  {
    m :| m in s;
    var rest := s - {m};
    assert forall x :: x in s ==> x == m || x in rest;
    if rest != {} {
      var n := LeastExists(rest);
      m := if n < m then n else m;
    }
  }

  /** The next to release: ascending order. */
  ghost function Least(s: set<nat>): (m: nat)
    requires s != {}
    ensures m in s && forall x :: x in s ==> m <= x
  {
    assert exists m :: m in s && forall x :: x in s ==> m <= x by {
      var m := LeastExists(s);
    }
    var m :| m in s && forall x :: x in s ==> m <= x;
    m
  }

  /** The Up of the least held key. */
  ghost function ReleaseKey(s: State, accepts: nat): (r: Result)
    requires s.keys != map[]
    ensures r.failed ==> r.state == s && r.sent == []
    ensures !r.failed ==> r.state.keys.Keys < s.keys.Keys
  {
    var k := Least(s.keys.Keys);
    var r := ValidateAndSend(s, KeyMessage(s, k, UP, s.keys[k]), accepts);
    assert (s.keys - {k}).Keys == s.keys.Keys - {k};
    if r.failed then r else r.(state := r.state.(keys := r.state.keys - {k}))
  }

  ghost function ReleaseKeys(s: State, accepts: nat): Result
    decreases s.keys.Keys
  {
    if s.keys == map[] then Result(s, [], accepts, false)
    else
      var r := ReleaseKey(s, accepts);
      if r.failed then r else Then(r, ReleaseKeys(r.state, r.left))
  }

  ghost function ReleaseButton(s: State, accepts: nat): (r: Result)
    requires s.buttons != {}
    ensures r.failed ==> r.state == s && r.sent == []
    ensures !r.failed ==> r.state.buttons < s.buttons
  {
    var b := Least(s.buttons);
    var r := ValidateAndSend(s, ButtonMessage(s, b, UP), accepts);
    if r.failed then r else r.(state := r.state.(buttons := r.state.buttons - {b}))
  }

  ghost function ReleaseButtons(s: State, accepts: nat): Result
    decreases s.buttons
  {
    if s.buttons == {} then Result(s, [], accepts, false)
    else
      var r := ReleaseButton(s, accepts);
      if r.failed then r else Then(r, ReleaseButtons(r.state, r.left))
  }

  ghost function ReleaseAll(s: State, accepts: nat): Result {
    var r := ReleaseKeys(s, accepts);
    if r.failed then r else Then(r, ReleaseButtons(r.state, r.left))
  }

  // ----- operations

  ghost function Focus(s: State, focused: bool, accepts: nat): Result {
    if !s.connected then Result(s, [], accepts, false)
    else if focused || !s.focused then Result(s.(focused := focused), [], accepts, false)
    else
      var r := ReleaseAll(s, accepts);
      if r.failed then r.(state := r.state.(connected := false))
      else
        var lost := Then(r, Send(r.state, FocusLost(r.state.generation, r.state.sequence + 1), r.left));
        if lost.failed then lost.(state := lost.state.(connected := false))
        else lost.(state := lost.state.(focused := false))
  }

  function Press(s: State, usage: nat, action: nat, modifiers: nat, accepts: nat): Result {
    if !Active(s) then Result(s, [], accepts, false)
    else if (action == DOWN && usage in s.keys) || (action == UP && usage !in s.keys) then Result(s, [], accepts, false)
    else
      var r := ValidateAndSend(s, KeyMessage(s, usage, action, modifiers), accepts);
      if r.failed then r
      else if action == DOWN then r.(state := r.state.(keys := r.state.keys[usage := modifiers]))
      else r.(state := r.state.(keys := r.state.keys - {usage}))
  }

  function Click(s: State, button: nat, action: nat, accepts: nat): Result {
    if !Active(s) then Result(s, [], accepts, false)
    else if (action == DOWN && button in s.buttons) || (action == UP && button !in s.buttons) then
      Result(s, [], accepts, false)
    else
      var r := ValidateAndSend(s, ButtonMessage(s, button, action), accepts);
      if r.failed then r
      else if action == DOWN then r.(state := r.state.(buttons := r.state.buttons + {button}))
      else r.(state := r.state.(buttons := r.state.buttons - {button}))
  }

  ghost function Perform(s: State, op: Operation, accepts: nat): Result {
    match op
    case SetSender(present) => Result(s.(hasSender := present), [], accepts, false)
    case SetDisplay(g, w, h) => Result(s.(generation := g, width := w, height := h), [], accepts, false)
    case SetFocused(focused) => Focus(s, focused, accepts)
    case Disconnect =>
      if !s.connected then Result(s, [], accepts, false)
      else
        var r := ReleaseAll(s, accepts);
        r.(state := r.state.(connected := false, focused := false))
    case Connect => Result(s.(connected := true, focused := false, keys := map[], buttons := {}), [], accepts, false)
    case PressKey(usage, action, modifiers) => Press(s, usage, action, modifiers, accepts)
    case PressButton(button, action) => Click(s, button, action, accepts)
    case MovePointer(x, y) =>
      if !Active(s) then Result(s, [], accepts, false)
      else ValidateAndSend(s, PointerMove(s.generation, s.sequence + 1, x, y), accepts)
    case TurnWheel(horizontal, vertical) =>
      if !Active(s) then Result(s, [], accepts, false)
      else ValidateAndSend(s, PointerWheel(s.generation, s.sequence + 1, horizontal, vertical), accepts)
  }

  // ----- what the other side can tell is held

  /** The keys down after a trace; None once a key goes down twice or up without being down. */
  function KeysDown(trace: seq<Message>): Option<set<nat>> {
    if trace == [] then Some({})
    else
      var before := KeysDown(trace[..|trace| - 1]);
      match trace[|trace| - 1]
      case Key(_, _, usage, action, _) =>
        if before == None || (action == DOWN && usage in before.value) || (action == UP && usage !in before.value) then None
        else if action == DOWN then Some(before.value + {usage})
        else if action == UP then Some(before.value - {usage})
        else None
      case _ => before
  }

  function ButtonsDown(trace: seq<Message>): Option<set<nat>> {
    if trace == [] then Some({})
    else
      var before := ButtonsDown(trace[..|trace| - 1]);
      match trace[|trace| - 1]
      case PointerButton(_, _, button, action) =>
        if before == None || (action == DOWN && button in before.value) || (action == UP && button !in before.value) then None
        else if action == DOWN then Some(before.value + {button})
        else if action == UP then Some(before.value - {button})
        else None
      case _ => before
  }

  function SequenceOf(m: Message): nat {
    match m
    case Key(_, sequence, _, _, _) => sequence
    case PointerMove(_, sequence, _, _) => sequence
    case PointerButton(_, sequence, _, _) => sequence
    case PointerWheel(_, sequence, _, _) => sequence
    case FocusLost(_, sequence) => sequence
    case _ => 0
  }

  /** Messages numbered last+1, last+2, ... with no gap. */
  ghost predicate Numbered(sent: seq<Message>, last: nat) {
    forall k :: 0 <= k < |sent| ==> SequenceOf(sent[k]) == last + 1 + k
  }

  /** The bookkeeping matches what this connection's trace has told the host, and an
      unfocused connection holds nothing. */
  ghost predicate Consistent(s: State, trace: seq<Message>) {
    && KeysDown(trace) == Some(s.keys.Keys)
    && ButtonsDown(trace) == Some(s.buttons)
    && (s.connected && !s.focused ==> s.keys == map[] && s.buttons == {})
  }

  lemma TraceSnoc(trace: seq<Message>, m: Message)
    ensures KeysDown(trace + [m]) == if m.Key? then KeysDown(trace + [m]) else KeysDown(trace)
    ensures ButtonsDown(trace + [m]) == if m.PointerButton? then ButtonsDown(trace + [m]) else ButtonsDown(trace)
    ensures (trace + [m])[..|trace + [m]| - 1] == trace
  {
    assert (trace + [m])[..|trace|] == trace;
  }

  ghost predicate Tracks(s: State, trace: seq<Message>) {
    KeysDown(trace) == Some(s.keys.Keys) && ButtonsDown(trace) == Some(s.buttons)
  }

  lemma {:induction false} ReleaseKeysTracks(s: State, accepts: nat, trace: seq<Message>)
    requires Tracks(s, trace)
    ensures var r := ReleaseKeys(s, accepts);
            && Tracks(r.state, trace + r.sent)
            && Numbered(r.sent, s.sequence) && r.state.sequence == s.sequence + |r.sent|
            && (!r.failed ==> r.state.keys == map[])
            && r.state == s.(sequence := r.state.sequence, keys := r.state.keys)
    decreases s.keys.Keys
  {
    hide MessageError;
    if s.keys == map[] {
      assert trace + [] == trace;
    } else {
      var k := Least(s.keys.Keys);
      var m := KeyMessage(s, k, UP, s.keys[k]);
      var r := ValidateAndSend(s, m, accepts);
      if r.failed {
        assert trace + [] == trace;
      } else {
        TraceSnoc(trace, m);
        var next := r.state.(keys := r.state.keys - {k});
        assert next.keys.Keys == s.keys.Keys - {k};
        ReleaseKeysTracks(next, r.left, trace + [m]);
        var rest := ReleaseKeys(next, r.left);
        assert trace + ([m] + rest.sent) == trace + [m] + rest.sent;
        NumberedCons(m, rest.sent, s.sequence);
      }
    }
  }

  lemma NumberedCons(m: Message, rest: seq<Message>, last: nat)
    requires SequenceOf(m) == last + 1 && Numbered(rest, last + 1)
    ensures Numbered([m] + rest, last)
  {
  }

  lemma NumberedConcat(a: seq<Message>, b: seq<Message>, last: nat)
    requires Numbered(a, last) && Numbered(b, last + |a|)
    ensures Numbered(a + b, last)
  {
  }

  lemma {:induction false} ReleaseButtonsTracks(s: State, accepts: nat, trace: seq<Message>)
    requires Tracks(s, trace)
    ensures var r := ReleaseButtons(s, accepts);
            && Tracks(r.state, trace + r.sent)
            && Numbered(r.sent, s.sequence) && r.state.sequence == s.sequence + |r.sent|
            && (!r.failed ==> r.state.buttons == {})
            && r.state == s.(sequence := r.state.sequence, buttons := r.state.buttons)
    decreases s.buttons
  {
    hide MessageError;
    if s.buttons == {} {
      assert trace + [] == trace;
    } else {
      var b := Least(s.buttons);
      var m := ButtonMessage(s, b, UP);
      var r := ValidateAndSend(s, m, accepts);
      if r.failed {
        assert trace + [] == trace;
      } else {
        TraceSnoc(trace, m);
        var next := r.state.(buttons := r.state.buttons - {b});
        ReleaseButtonsTracks(next, r.left, trace + [m]);
        var rest := ReleaseButtons(next, r.left);
        assert trace + ([m] + rest.sent) == trace + [m] + rest.sent;
        NumberedCons(m, rest.sent, s.sequence);
      }
    }
  }

  lemma ReleaseAllTracks(s: State, accepts: nat, trace: seq<Message>)
    requires Tracks(s, trace)
    ensures var r := ReleaseAll(s, accepts);
            && Tracks(r.state, trace + r.sent)
            && Numbered(r.sent, s.sequence) && r.state.sequence == s.sequence + |r.sent|
            && (!r.failed ==> r.state.keys == map[] && r.state.buttons == {})
            && r.state == s.(sequence := r.state.sequence, keys := r.state.keys, buttons := r.state.buttons)
  {
    hide ReleaseKeys, ReleaseButtons, KeysDown, ButtonsDown;
    ReleaseKeysTracks(s, accepts, trace);
    var r := ReleaseKeys(s, accepts);
    if !r.failed {
      ReleaseButtonsTracks(r.state, r.left, trace + r.sent);
      var q := ReleaseButtons(r.state, r.left);
      assert trace + (r.sent + q.sent) == trace + r.sent + q.sent;
      NumberedConcat(r.sent, q.sent, s.sequence);
    }
  }

  // ----- every operation, every run

  lemma SendTracks(s: State, m: Message, accepts: nat, trace: seq<Message>)
    requires Tracks(s, trace) && SequenceOf(m) == s.sequence + 1 && !m.Key? && !m.PointerButton?
    ensures var r := Send(s, m, accepts);
            Tracks(r.state, trace + r.sent) && Numbered(r.sent, s.sequence) && r.state.sequence == s.sequence + |r.sent|
  {
    TraceSnoc(trace, m);
    assert trace + [] == trace;
  }

  /** After an operation the books match the connection's longer trace, and what it sent is
      numbered on. */
  ghost predicate GoodStep(s: State, r: Result, trace: seq<Message>) {
    && Consistent(r.state, trace + r.sent)
    && Numbered(r.sent, s.sequence) && r.state.sequence == s.sequence + |r.sent|
  }

  lemma PressTracks(s: State, usage: nat, action: nat, modifiers: nat, accepts: nat, trace: seq<Message>)
    requires Consistent(s, trace)
    ensures GoodStep(s, Press(s, usage, action, modifiers, accepts), trace)
  {
    hide MessageError;
    var m := KeyMessage(s, usage, action, modifiers);
    TraceSnoc(trace, m);
    assert trace + [] == trace;
    ValidKeyAction(m);
    assert s.keys[usage := modifiers].Keys == s.keys.Keys + {usage};
    assert (s.keys - {usage}).Keys == s.keys.Keys - {usage};
  }

  lemma ValidKeyAction(m: Message)
    ensures m.Key? && MessageError(m, DEFAULT_LIMITS) == None ==> m.action == DOWN || m.action == UP
    ensures m.PointerButton? && MessageError(m, DEFAULT_LIMITS) == None ==> m.action == DOWN || m.action == UP
  {
  }

  lemma ClickTracks(s: State, button: nat, action: nat, accepts: nat, trace: seq<Message>)
    requires Consistent(s, trace)
    ensures GoodStep(s, Click(s, button, action, accepts), trace)
  {
    hide MessageError;
    var m := ButtonMessage(s, button, action);
    TraceSnoc(trace, m);
    assert trace + [] == trace;
    ValidKeyAction(m);
  }

  lemma FocusTracks(s: State, focused: bool, accepts: nat, trace: seq<Message>)
    requires Consistent(s, trace)
    ensures GoodStep(s, Focus(s, focused, accepts), trace)
    ensures s.connected && s.focused && !focused && !Focus(s, focused, accepts).failed ==>
              KeysDown(trace + Focus(s, focused, accepts).sent) == Some({})
              && ButtonsDown(trace + Focus(s, focused, accepts).sent) == Some({})
  {
    hide ReleaseAll, MessageError, KeysDown, ButtonsDown;
    assert trace + [] == trace;
    NothingDown();
    ReleaseAllTracks(s, accepts, trace);
    var r := ReleaseAll(s, accepts);
    if !r.failed {
      var m := FocusLost(r.state.generation, r.state.sequence + 1);
      SendTracks(r.state, m, r.left, trace + r.sent);
      var q := Send(r.state, m, r.left);
      assert trace + (r.sent + q.sent) == trace + r.sent + q.sent;
      NumberedConcat(r.sent, q.sent, s.sequence);
    }
  }

  lemma NothingDown()
    ensures KeysDown([]) == Some({}) && ButtonsDown([]) == Some({})
    ensures var none: map<nat, nat> := map[]; none.Keys == {}
  {
  }

  predicate NothingHeld(s: State) { s.keys == map[] && s.buttons == {} }

  /** Input traces: every operation, whatever the sender does, keeps the connection's whole
      trace alternating for every key and button, its numbering gap-free, and an unfocused
      connection empty-handed, as long as nothing is held when Connect is called; a focus
      loss or disconnection that succeeds leaves every Down answered by its Up. */
  lemma PerformTracks(s: State, op: Operation, accepts: nat, trace: seq<Message>)
    requires Consistent(s, trace) && (op.Connect? ==> NothingHeld(s))
    ensures GoodStep(s, Perform(s, op, accepts), trace)
    ensures var r := Perform(s, op, accepts);
            s.connected && !r.failed && (op.Disconnect? || op == SetFocused(false)) ==>
              KeysDown(trace + r.sent) == Some({}) && ButtonsDown(trace + r.sent) == Some({})
  {
    hide ReleaseAll, MessageError, KeysDown, ButtonsDown, Focus, Press, Click;
    assert trace + [] == trace;
    NothingDown();
    match op
    case SetFocused(focused) =>
      FocusTracks(s, focused, accepts, trace);
      FocusKept(s, focused, accepts);
    case Disconnect => ReleaseAllTracks(s, accepts, trace);
    case PressKey(usage, action, modifiers) => PressTracks(s, usage, action, modifiers, accepts, trace);
    case PressButton(button, action) => ClickTracks(s, button, action, accepts, trace);
    case MovePointer(x, y) => SendTracks(s, PointerMove(s.generation, s.sequence + 1, x, y), accepts, trace);
    case TurnWheel(h, v) => SendTracks(s, PointerWheel(s.generation, s.sequence + 1, h, v), accepts, trace);
    case _ =>
  }

  lemma FocusKept(s: State, focused: bool, accepts: nat)
    ensures !s.focused || focused ==> Focus(s, focused, accepts).sent == []
  {
  }

  // ----- numbering, whatever the books say

  lemma {:induction false} ReleaseKeysNumbers(s: State, accepts: nat)
    ensures var r := ReleaseKeys(s, accepts);
            Numbered(r.sent, s.sequence) && r.state.sequence == s.sequence + |r.sent|
    decreases s.keys.Keys
  {
    hide MessageError;
    if s.keys != map[] {
      var k := Least(s.keys.Keys);
      var m := KeyMessage(s, k, UP, s.keys[k]);
      var r := ValidateAndSend(s, m, accepts);
      if !r.failed {
        var next := r.state.(keys := r.state.keys - {k});
        assert next.keys.Keys == s.keys.Keys - {k};
        ReleaseKeysNumbers(next, r.left);
        NumberedCons(m, ReleaseKeys(next, r.left).sent, s.sequence);
      }
    }
  }

  lemma {:induction false} ReleaseButtonsNumbers(s: State, accepts: nat)
    ensures var r := ReleaseButtons(s, accepts);
            Numbered(r.sent, s.sequence) && r.state.sequence == s.sequence + |r.sent|
    decreases s.buttons
  {
    hide MessageError;
    if s.buttons != {} {
      var b := Least(s.buttons);
      var m := ButtonMessage(s, b, UP);
      var r := ValidateAndSend(s, m, accepts);
      if !r.failed {
        var next := r.state.(buttons := r.state.buttons - {b});
        ReleaseButtonsNumbers(next, r.left);
        NumberedCons(m, ReleaseButtons(next, r.left).sent, s.sequence);
      }
    }
  }

  lemma ReleaseAllNumbers(s: State, accepts: nat)
    ensures var r := ReleaseAll(s, accepts);
            Numbered(r.sent, s.sequence) && r.state.sequence == s.sequence + |r.sent|
  {
    hide ReleaseKeys, ReleaseButtons;
    ReleaseKeysNumbers(s, accepts);
    var r := ReleaseKeys(s, accepts);
    if !r.failed {
      ReleaseButtonsNumbers(r.state, r.left);
      NumberedConcat(r.sent, ReleaseButtons(r.state, r.left).sent, s.sequence);
    }
  }

  lemma FocusNumbers(s: State, focused: bool, accepts: nat)
    ensures var r := Focus(s, focused, accepts);
            Numbered(r.sent, s.sequence) && r.state.sequence == s.sequence + |r.sent|
  {
    hide ReleaseAll;
    ReleaseAllNumbers(s, accepts);
    var r := ReleaseAll(s, accepts);
    if !r.failed {
      NumberedConcat(r.sent, Send(r.state, FocusLost(r.state.generation, r.state.sequence + 1), r.left).sent, s.sequence);
    }
  }

  /** What an operation sends continues the numbering without a gap. */
  lemma PerformNumbers(s: State, op: Operation, accepts: nat)
    ensures var r := Perform(s, op, accepts);
            Numbered(r.sent, s.sequence) && r.state.sequence == s.sequence + |r.sent|
  {
    hide ReleaseAll, MessageError, Focus;
    match op
    case SetFocused(focused) => FocusNumbers(s, focused, accepts);
    case Disconnect => ReleaseAllNumbers(s, accepts);
    case _ =>
  }

  // ----- whole connections

  /** An operation on the input state, or the moment a new connection takes over its sender. */
  datatype Step = Step(op: Operation, accepts: nat) | Attached

  ghost function After(s: State, step: Step): State {
    if step.Attached? then s else Perform(s, step.op, step.accepts).state
  }

  /** What has been sent on the current connection, from its very beginning. */
  ghost function Trace(s: State, trace: seq<Message>, step: Step): seq<Message> {
    if step.Attached? then [] else trace + Perform(s, step.op, step.accepts).sent
  }

  /** The state after a run, everything sent in it, and what was sent on the last connection. */
  ghost function Run(s: State, trace: seq<Message>, steps: seq<Step>): (State, seq<Message>, seq<Message>)
    decreases |steps|
  {
    if steps == [] then (s, [], trace)
    else
      var sent := if steps[0].Attached? then [] else Perform(s, steps[0].op, steps[0].accepts).sent;
      var (last, rest, epoch) := Run(After(s, steps[0]), Trace(s, trace, steps[0]), steps[1..]);
      (last, sent + rest, epoch)
  }

  /** Over any run with any pattern of send failures input numbers never skip. */
  lemma {:induction false} RunNumbers(s: State, trace: seq<Message>, steps: seq<Step>)
    ensures var (last, sent, _) := Run(s, trace, steps);
            Numbered(sent, s.sequence) && last.sequence == s.sequence + |sent|
    decreases |steps|
  {
    hide Perform;
    if steps != [] {
      var next, longer := After(s, steps[0]), Trace(s, trace, steps[0]);
      RunNumbers(next, longer, steps[1..]);
      if steps[0].Step? {
        PerformNumbers(s, steps[0].op, steps[0].accepts);
        NumberedConcat(Perform(s, steps[0].op, steps[0].accepts).sent, Run(next, longer, steps[1..]).1, s.sequence);
      }
    }
  }

  /** While connected, the books match everything the connection was told. */
  ghost predicate Matches(s: State, trace: seq<Message>) {
    s.connected ==> Consistent(s, trace)
  }

  /** What keeps the books right: nothing is held when Connect is called or a connection takes
      over, except that a disconnected client may connect to one that was told of nothing. */
  ghost predicate Clean(s: State, trace: seq<Message>, step: Step) {
    match step
    case Attached => s.connected ==> NothingHeld(s)
    case Step(Connect, _) =>
      if s.connected then NothingHeld(s) else KeysDown(trace) == Some({}) && ButtonsDown(trace) == Some({})
    case _ => true
  }

  lemma DisconnectedIsQuiet(s: State, op: Operation, accepts: nat)
    requires !s.connected && !op.Connect?
    ensures !Perform(s, op, accepts).state.connected && Perform(s, op, accepts).sent == []
  {
  }

  /** One step keeps the books right exactly when it is clean. */
  lemma StepMatches(s: State, trace: seq<Message>, step: Step)
    requires Matches(s, trace)
    ensures Matches(After(s, step), Trace(s, trace, step)) <==> Clean(s, trace, step)
  {
    hide KeysDown, ButtonsDown, ReleaseAll, Focus, Press, Click, MessageError;
    NothingDown();
    assert trace + [] == trace;
    if step.Step? && !step.op.Connect? {
      if s.connected {
        PerformTracks(s, step.op, step.accepts, trace);
      } else {
        DisconnectedIsQuiet(s, step.op, step.accepts);
      }
    } else {
      NoKeys(s.keys);
    }
  }

  lemma NoKeys(keys: map<nat, nat>)
    ensures keys.Keys == {} <==> keys == map[]
  {
  }

  ghost predicate AlwaysMatches(s: State, trace: seq<Message>, steps: seq<Step>)
    decreases |steps|
  {
    && Matches(s, trace)
    && (steps == [] || AlwaysMatches(After(s, steps[0]), Trace(s, trace, steps[0]), steps[1..]))
  }

  ghost predicate AlwaysClean(s: State, trace: seq<Message>, steps: seq<Step>)
    decreases |steps|
  {
    steps == [] ||
    (Clean(s, trace, steps[0]) && AlwaysClean(After(s, steps[0]), Trace(s, trace, steps[0]), steps[1..]))
  }

  /** Input traces over whole connections: at every moment of a run, with any pattern of send
      failures, the trace since the connection began alternates Down and Up for every key and
      button and matches what is recorded as held, and a connected, unfocused client holds
      nothing, if and only if nothing was held whenever Connect was called. */
  lemma {:induction false} RunTracks(s: State, trace: seq<Message>, steps: seq<Step>)
    requires Matches(s, trace)
    ensures AlwaysMatches(s, trace, steps) <==> AlwaysClean(s, trace, steps)
    decreases |steps|
  {
    hide Matches, Clean, After, Trace;
    if steps != [] {
      StepMatches(s, trace, steps[0]);
      if Clean(s, trace, steps[0]) {
        RunTracks(After(s, steps[0]), Trace(s, trace, steps[0]), steps[1..]);
      } else {
        assert !AlwaysMatches(After(s, steps[0]), Trace(s, trace, steps[0]), steps[1..]);
      }
    }
  }

  /** A connection that takes over from a disconnected client is clean: until Connect it is
      told of nothing, whatever is still in the books. */
  lemma {:induction false} LaterConnectionsAreClean(s: State, steps: seq<Step>, accepts: nat)
    requires !s.connected && forall k :: 0 <= k < |steps| ==> steps[k].Step? && !steps[k].op.Connect?
    ensures var (last, _, trace) := Run(s, [], steps);
            !last.connected && trace == [] && Clean(last, trace, Step(Connect, accepts))
    decreases |steps|
  {
    hide Perform;
    NothingDown();
    if steps != [] {
      DisconnectedIsQuiet(s, steps[0].op, steps[0].accepts);
      LaterConnectionsAreClean(After(s, steps[0]), steps[1..], accepts);
    }
  }

  // ----- the first connection

  /** A fresh client that the session's sender is attached to. It counts as connected. */
  const FRESH := State(0, 0, 0, 0, false, true, true, map[], {})

  /** Focus, the display and a key press, in this order, before Connect is reached. */
  const EARLY_KEY: seq<Step> :=
    [Step(SetFocused(true), 9), Step(SetDisplay(1, 640, 480), 9), Step(PressKey(4, DOWN, 0), 9)]

  /** On a first connection a key pressed between DISPLAY_CONFIG and Connect goes out, and
      Connect forgets it: a later focus loss succeeds and still sends no Up for it. */
  lemma EarlyKeyIsLost()
    ensures var (held, _, trace) := Run(FRESH, [], EARLY_KEY);
            && held.keys.Keys == {4} && Consistent(held, trace) && !Clean(held, trace, Step(Connect, 9))
            && var connected := Perform(held, Connect, 9).state;
               var focused := Perform(connected, SetFocused(true), 9).state;
               var lost := Perform(focused, SetFocused(false), 9);
               && !lost.failed && lost.sent == [FocusLost(1, 2)]
               && KeysDown(trace + lost.sent) == Some({4}) && lost.state.keys == map[]
  {
    hide MessageError;
    var s1 := After(FRESH, EARLY_KEY[0]);
    var s2 := After(s1, EARLY_KEY[1]);
    var m := Key(1, 1, 4, DOWN, 0);
    assert MessageError(m, DEFAULT_LIMITS) == None by { EarlyKeyIsValid(); }
    NothingDown();
    assert s2 == State(1, 640, 480, 0, true, true, true, map[], {});
    assert Perform(s2, PressKey(4, DOWN, 0), 9) == Result(s2.(sequence := 1, keys := map[4 := 0]), [m], 8, false);
    assert [] + [] + [] + [m] == [m];
    RunOfThree(FRESH, EARLY_KEY);
    TraceSnoc([], m);
    assert [] + [m] == [m];
    assert [m][..|[m]| - 1] == [] && [m][|[m]| - 1] == m;
    assert KeysDown([m]) == Some({} + {4}) && ButtonsDown([m]) == Some({});
    var (held, _, trace) := Run(FRESH, [], EARLY_KEY);
    assert trace == [m] && held.keys.Keys == {4} && held.buttons == {} && held.focused;
    assert KeysDown(trace).value == held.keys.Keys;
    TraceSnoc([m], FocusLost(1, 2));
    assert [m] + [FocusLost(1, 2)] == [m, FocusLost(1, 2)];
  }

  lemma EarlyKeyIsValid()
    ensures MessageError(Key(1, 1, 4, DOWN, 0), DEFAULT_LIMITS) == None
  {
  }

  lemma RunOfThree(s: State, steps: seq<Step>)
    requires |steps| == 3
    ensures var s1, t1 := After(s, steps[0]), Trace(s, [], steps[0]);
            var s2, t2 := After(s1, steps[1]), Trace(s1, t1, steps[1]);
            Run(s, [], steps).0 == After(s2, steps[2]) && Run(s, [], steps).2 == Trace(s2, t2, steps[2])
  {
    hide After, Trace, Run;
    var s1, t1 := After(s, steps[0]), Trace(s, [], steps[0]);
    var s2, t2 := After(s1, steps[1]), Trace(s1, t1, steps[1]);
    assert steps[1..][1..] == [steps[2]] && [steps[2]][1..] == [];
    RunFirst(s, [], steps);
    RunFirst(s1, t1, steps[1..]);
    RunFirst(s2, t2, [steps[2]]);
    RunNothing(After(s2, steps[2]), Trace(s2, t2, steps[2]));
  }

  lemma RunFirst(s: State, trace: seq<Message>, steps: seq<Step>)
    requires steps != []
    ensures var (last, _, epoch) := Run(After(s, steps[0]), Trace(s, trace, steps[0]), steps[1..]);
            Run(s, trace, steps).0 == last && Run(s, trace, steps).2 == epoch
  {
    hide After, Trace, Perform;
  }

  lemma RunNothing(s: State, trace: seq<Message>)
    ensures Run(s, trace, []) == (s, [], trace)
  {
  }
}
