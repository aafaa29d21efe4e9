/** What the client's input operations put on the wire, message by message. */
module InputSent {
  import opened Messages
  import opened Validation
  import opened ClientInput

  // ----- one event

  /** Captured, with a display known and somebody to send to. */
  predicate Capturing(s: State) {
    s.connected && s.focused && s.hasSender && 0 < s.generation && 0 < s.width && 0 < s.height
  }

  /** The outcome of sending one message: handed over and counted, or nothing at all. */
  predicate Offered(s: State, m: Message, accepts: nat, r: Result) {
    if MessageError(m, DEFAULT_LIMITS).None? && s.hasSender && 0 < accepts then
      r == Result(r.state, [m], accepts - 1, false) && r.state.sequence == s.sequence + 1
    else r.failed && r.state == s && r.sent == []
  }

  predicate Nothing(s: State, accepts: nat, r: Result) {
    r == Result(s, [], accepts, false)
  }

  /** A key goes out as pressed and is held with its modifiers; a repeated press or an unheld
      release is swallowed. */
  lemma KeyExactly(s: State, usage: nat, action: nat, modifiers: nat, accepts: nat)
    ensures var r := Perform(s, PressKey(usage, action, modifiers), accepts);
            if !Capturing(s) || (action == 1 && usage in s.keys) || (action == 2 && usage !in s.keys) then
              Nothing(s, accepts, r)
            else
              && Offered(s, Key(s.generation, s.sequence + 1, usage, action, modifiers), accepts, r)
              && (!r.failed ==>
                    && r.state == s.(sequence := s.sequence + 1, keys := r.state.keys)
                    && (forall k :: k in r.state.keys <==> if k == usage then action == 1 else k in s.keys)
                    && (forall k :: k in r.state.keys ==>
                          r.state.keys[k] == if k == usage then modifiers else s.keys[k]))
  {
    hide MessageError;
  }

  /** Likewise a button. */
  lemma ButtonExactly(s: State, button: nat, action: nat, accepts: nat)
    ensures var r := Perform(s, PressButton(button, action), accepts);
            if !Capturing(s) || (action == 1 && button in s.buttons) || (action == 2 && button !in s.buttons) then
              Nothing(s, accepts, r)
            else
              && Offered(s, PointerButton(s.generation, s.sequence + 1, button, action), accepts, r)
              && (!r.failed ==>
                    && r.state == s.(sequence := s.sequence + 1, buttons := r.state.buttons)
                    && (forall b :: b in r.state.buttons <==> if b == button then action == 1 else b in s.buttons))
  {
    hide MessageError;
  }

  /** A move and a turn of the wheel go out as they came. */
  lemma PointerExactly(s: State, x: nat, y: nat, horizontal: int, vertical: int, accepts: nat)
    ensures var moved := Perform(s, MovePointer(x, y), accepts);
            var turned := Perform(s, TurnWheel(horizontal, vertical), accepts);
            if !Capturing(s) then Nothing(s, accepts, moved) && Nothing(s, accepts, turned)
            else
              && Offered(s, PointerMove(s.generation, s.sequence + 1, x, y), accepts, moved)
              && Offered(s, PointerWheel(s.generation, s.sequence + 1, horizontal, vertical), accepts, turned)
              && moved.state == s.(sequence := moved.state.sequence)
              && turned.state == s.(sequence := turned.state.sequence)
  {
    hide MessageError;
  }

  // ----- releases

  ghost predicate Ascending(xs: seq<nat>) {
    forall i, j :: 0 <= i < j < |xs| ==> xs[i] < xs[j]
  }

  ghost predicate Lists(xs: seq<nat>, s: set<nat>) {
    Ascending(xs) && forall x :: x in xs <==> x in s
  }

  function SetOf(xs: seq<nat>): set<nat> {
    set x | x in xs
  }

  /** The releases of these keys, each with the modifiers it was pressed with, then of these
      buttons. */
  function Ups(s: State, ks: seq<nat>, bs: seq<nat>): (ms: seq<Message>)
    requires forall k :: k in ks ==> k in s.keys
    ensures |ms| == |ks| + |bs|
  {
    seq(|ks| + |bs|, j requires 0 <= j < |ks| + |bs| =>
      if j < |ks| then Key(s.generation, s.sequence + 1 + j, ks[j], 2, s.keys[ks[j]])
      else PointerButton(s.generation, s.sequence + 1 + j, bs[j - |ks|], 2))
  }

  /** Of these messages the first n go out: all, or up to the first that is not valid or finds
      no sender to take it. */
  ghost predicate Goes(ms: seq<Message>, n: nat, accepts: nat, hasSender: bool) {
    && n <= |ms|
    && (forall j :: 0 <= j < n ==> MessageError(ms[j], DEFAULT_LIMITS).None? && hasSender && j < accepts)
    && (n < |ms| ==> MessageError(ms[n], DEFAULT_LIMITS).Some? || !hasSender || n == accepts)
  }

  ghost predicate KeysReleased(s: State, ks: seq<nat>, n: nat, accepts: nat, r: Result)
    requires forall k :: k in ks ==> k in s.keys
  {
    var ms := Ups(s, ks, []);
    && Goes(ms, n, accepts, s.hasSender)
    && r.sent == ms[..n] && (r.failed <==> n < |ms|) && (!r.failed ==> r.left == accepts - n)
    && r.state == s.(sequence := s.sequence + n, keys := s.keys - SetOf(ks[..n]))
  }

  lemma LeastFirst(k: nat, rest: seq<nat>, s: set<nat>)
    requires k in s && (forall x :: x in s ==> k <= x) && Lists(rest, s - {k})
    ensures Lists([k] + rest, s)
  {
    var xs := [k] + rest;
    forall i, j | 0 <= i < j < |xs|
      ensures xs[i] < xs[j]
    {
      assert xs[j] == rest[j - 1] && xs[j] in rest;
    }
  }

  lemma UpsFirst(s: State, s1: State, ks: seq<nat>)
    requires ks != [] && (forall k :: k in ks ==> k in s.keys) && (forall k :: k in ks[1..] ==> k in s1.keys)
    requires s1.generation == s.generation && s1.sequence == s.sequence + 1
    requires forall k :: k in ks[1..] ==> s1.keys[k] == s.keys[k]
    ensures Ups(s, ks, []) == [Key(s.generation, s.sequence + 1, ks[0], 2, s.keys[ks[0]])] + Ups(s1, ks[1..], [])
  {
    assert forall j :: 0 < j < |ks| ==> ks[j] in ks[1..] && ks[j] == ks[1..][j - 1];
  }

  lemma GoesFirst(m: Message, rest: seq<Message>, n: nat, accepts: nat, hasSender: bool)
    requires MessageError(m, DEFAULT_LIMITS).None? && hasSender && 0 < accepts && Goes(rest, n, accepts - 1, hasSender)
    ensures Goes([m] + rest, n + 1, accepts, hasSender) && ([m] + rest)[..n + 1] == [m] + rest[..n]
  {
    GoesTogether([m], rest, n, accepts, hasSender);
  }

  /** One key released, and what became of the others. */
  lemma KeyReleased(s: State, k: nat, rest: seq<nat>, n: nat, accepts: nat, r: ClientInput.Result)
    requires k in s.keys && (forall x :: x in rest ==> x in s.keys && x != k) && s.hasSender && 0 < accepts
    requires MessageError(KeyMessage(s, k, UP, s.keys[k]), DEFAULT_LIMITS).None?
    requires KeysReleased(s.(sequence := s.sequence + 1, keys := s.keys - {k}), rest, n, accepts - 1, r)
    ensures KeysReleased(s, [k] + rest, n + 1, accepts,
                         r.(sent := [KeyMessage(s, k, UP, s.keys[k])] + r.sent))
  {
    hide MessageError, Ups, Goes;
    var s1 := s.(sequence := s.sequence + 1, keys := s.keys - {k});
    UpsFirst(s, s1, [k] + rest);
    assert ([k] + rest)[1..] == rest;
    GoesFirst(KeyMessage(s, k, UP, s.keys[k]), Ups(s1, rest, []), n, accepts, s.hasSender);
    assert n <= |rest| by { GoesLength(Ups(s1, rest, []), n, accepts - 1, s.hasSender); }
    assert ([k] + rest)[..n + 1] == [k] + rest[..n];
    assert s.keys - {k} - SetOf(rest[..n]) == s.keys - SetOf([k] + rest[..n]);
  }

  lemma NoKeyReleased(s: State, ks: seq<nat>, accepts: nat)
    requires (forall k :: k in ks ==> k in s.keys) && ks != []
    requires MessageError(KeyMessage(s, ks[0], UP, s.keys[ks[0]]), DEFAULT_LIMITS).Some? || !s.hasSender || accepts == 0
    ensures forall left :: KeysReleased(s, ks, 0, accepts, Result(s, [], left, true))
  {
    hide MessageError;
    assert s.keys - SetOf(ks[..0]) == s.keys;
  }

  /** Keys are released in ascending order. */
  lemma {:induction false} ReleaseKeysExactly(s: State, accepts: nat) returns (ks: seq<nat>, n: nat)
    ensures Lists(ks, s.keys.Keys) && KeysReleased(s, ks, n, accepts, ReleaseKeys(s, accepts))
    decreases s.keys.Keys
  {
    hide MessageError, KeysReleased;
    ks, n := [], 0;
    if s.keys == map[] {
      NothingHeldToRelease(s, accepts);
    } else {
      var k := Least(s.keys.Keys);
      var s1 := s.(sequence := s.sequence + 1, keys := s.keys - {k});
      assert s1.keys.Keys == s.keys.Keys - {k};
      var rest, n1 := ReleaseKeysExactly(s1, if accepts > 0 then accepts - 1 else 0);
      ks := [k] + rest;
      LeastFirst(k, rest, s.keys.Keys);
      if ReleaseKey(s, accepts).failed {
        NoKeyReleased(s, ks, accepts);
      } else {
        n := n1 + 1;
        KeyReleased(s, k, rest, n1, accepts, ReleaseKeys(s1, accepts - 1));
      }
    }
  }

  lemma NothingHeldToRelease(s: State, accepts: nat)
    ensures s.keys == map[] ==> KeysReleased(s, [], 0, accepts, Result(s, [], accepts, false))
    ensures s.buttons == {} ==> ButtonsReleased(s, [], 0, accepts, Result(s, [], accepts, false))
  {
    hide MessageError;
    assert s.keys - SetOf([]) == s.keys && s.buttons - SetOf([]) == s.buttons;
  }

  ghost predicate ButtonsReleased(s: State, bs: seq<nat>, n: nat, accepts: nat, r: Result) {
    var ms := Ups(s, [], bs);
    && Goes(ms, n, accepts, s.hasSender)
    && r.sent == ms[..n] && (r.failed <==> n < |ms|) && (!r.failed ==> r.left == accepts - n)
    && r.state == s.(sequence := s.sequence + n, buttons := s.buttons - SetOf(bs[..n]))
  }

  lemma ButtonUpsFirst(s: State, s1: State, bs: seq<nat>)
    requires bs != [] && s1.generation == s.generation && s1.sequence == s.sequence + 1
    ensures Ups(s, [], bs) == [PointerButton(s.generation, s.sequence + 1, bs[0], 2)] + Ups(s1, [], bs[1..])
  {
  }

  lemma ButtonReleased(s: State, b: nat, rest: seq<nat>, n: nat, accepts: nat, r: ClientInput.Result)
    requires s.hasSender && 0 < accepts && MessageError(ButtonMessage(s, b, UP), DEFAULT_LIMITS).None?
    requires ButtonsReleased(s.(sequence := s.sequence + 1, buttons := s.buttons - {b}), rest, n, accepts - 1, r)
    ensures ButtonsReleased(s, [b] + rest, n + 1, accepts, r.(sent := [ButtonMessage(s, b, UP)] + r.sent))
  {
    hide MessageError, Ups, Goes;
    var s1 := s.(sequence := s.sequence + 1, buttons := s.buttons - {b});
    ButtonUpsFirst(s, s1, [b] + rest);
    assert ([b] + rest)[1..] == rest;
    GoesFirst(ButtonMessage(s, b, UP), Ups(s1, [], rest), n, accepts, s.hasSender);
    assert n <= |rest| by { GoesLength(Ups(s1, [], rest), n, accepts - 1, s.hasSender); }
    assert ([b] + rest)[..n + 1] == [b] + rest[..n];
    assert s.buttons - {b} - SetOf(rest[..n]) == s.buttons - SetOf([b] + rest[..n]);
  }

  lemma NoButtonReleased(s: State, bs: seq<nat>, accepts: nat)
    requires bs != []
    requires MessageError(ButtonMessage(s, bs[0], UP), DEFAULT_LIMITS).Some? || !s.hasSender || accepts == 0
    ensures forall left :: ButtonsReleased(s, bs, 0, accepts, Result(s, [], left, true))
  {
    hide MessageError;
    assert s.buttons - SetOf(bs[..0]) == s.buttons;
  }

  lemma {:induction false} ReleaseButtonsExactly(s: State, accepts: nat) returns (bs: seq<nat>, n: nat)
    ensures Lists(bs, s.buttons) && ButtonsReleased(s, bs, n, accepts, ReleaseButtons(s, accepts))
    decreases s.buttons
  {
    hide MessageError, ButtonsReleased;
    bs, n := [], 0;
    if s.buttons == {} {
      NothingHeldToRelease(s, accepts);
    } else {
      var b := Least(s.buttons);
      var s1 := s.(sequence := s.sequence + 1, buttons := s.buttons - {b});
      var rest, n1 := ReleaseButtonsExactly(s1, if accepts > 0 then accepts - 1 else 0);
      bs := [b] + rest;
      LeastFirst(b, rest, s.buttons);
      if ReleaseButton(s, accepts).failed {
        NoButtonReleased(s, bs, accepts);
      } else {
        n := n1 + 1;
        ButtonReleased(s, b, rest, n1, accepts, ReleaseButtons(s1, accepts - 1));
      }
    }
  }

  /** What a release of everything comes to: the first n of these messages, and what they name
      is no longer held. */
  ghost predicate Released(s: State, ks: seq<nat>, bs: seq<nat>, n: nat, accepts: nat, r: Result)
    requires forall k :: k in ks ==> k in s.keys
  {
    var ms := Ups(s, ks, bs);
    && Goes(ms, n, accepts, s.hasSender)
    && r.sent == ms[..n] && (r.failed <==> n < |ms|) && (!r.failed ==> r.left == accepts - n)
    && r.state == s.(sequence := s.sequence + n, keys := s.keys - SetOf(First(ks, n)),
                     buttons := s.buttons - SetOf(First(bs, n - |ks|)))
  }

  function First(xs: seq<nat>, n: int): seq<nat> {
    if n < 0 then [] else if n <= |xs| then xs[..n] else xs
  }

  lemma UpsTogether(s: State, s1: State, ks: seq<nat>, bs: seq<nat>)
    requires (forall k :: k in ks ==> k in s.keys) && s1.generation == s.generation && s1.sequence == s.sequence + |ks|
    ensures Ups(s, ks, bs) == Ups(s, ks, []) + Ups(s1, [], bs)
  {
  }

  lemma GoesTogether(a: seq<Message>, b: seq<Message>, n: nat, accepts: nat, hasSender: bool)
    requires Goes(a, |a|, accepts, hasSender) && |a| <= accepts && Goes(b, n, accepts - |a|, hasSender)
    ensures Goes(a + b, |a| + n, accepts, hasSender) && (a + b)[..|a| + n] == a + b[..n]
  {
    hide MessageError;
    forall j | 0 <= j < |a| + n
      ensures MessageError((a + b)[j], DEFAULT_LIMITS).None? && hasSender && j < accepts
    {
      if j < |a| {
        assert (a + b)[j] == a[j];
      } else {
        assert (a + b)[j] == b[j - |a|];
      }
    }
  }

  lemma GoesPartly(a: seq<Message>, b: seq<Message>, n: nat, accepts: nat, hasSender: bool)
    requires Goes(a, n, accepts, hasSender) && n < |a|
    ensures Goes(a + b, n, accepts, hasSender) && (a + b)[..n] == a[..n]
  {
    hide MessageError;
    forall j | 0 <= j < n
      ensures MessageError((a + b)[j], DEFAULT_LIMITS).None? && hasSender && j < accepts
    {
      assert (a + b)[j] == a[j];
    }
    assert (a + b)[n] == a[n];
  }

  /** Everything held is released in order: keys ascending with their modifiers, then buttons
      ascending, numbered on without a gap, up to the first that fails. */
  lemma ReleaseExactly(s: State, accepts: nat) returns (ks: seq<nat>, bs: seq<nat>, n: nat)
    ensures Lists(ks, s.keys.Keys) && Lists(bs, s.buttons)
    ensures Released(s, ks, bs, n, accepts, ReleaseAll(s, accepts))
  {
    hide MessageError, Goes, Ups, ReleaseKeys, ReleaseButtons;
    ks, n := ReleaseKeysExactly(s, accepts);
    var r := ReleaseKeys(s, accepts);
    var m;
    bs, m := ReleaseButtonsExactly(r.state, r.left);
    GoesLength(Ups(s, ks, []), n, accepts, s.hasSender);
    if r.failed {
      GoesPartly(Ups(s, ks, []), Ups(r.state.(sequence := s.sequence + |ks|), [], bs), n, accepts, s.hasSender);
      UpsTogether(s, r.state.(sequence := s.sequence + |ks|), ks, bs);
      assert s.buttons - SetOf(First(bs, n - |ks|)) == s.buttons;
    } else {
      GoesTogether(Ups(s, ks, []), Ups(r.state, [], bs), m, accepts, s.hasSender);
      GoesLength(Ups(r.state, [], bs), m, r.left, s.hasSender);
      UpsTogether(s, r.state, ks, bs);
      assert Ups(s, ks, [])[..n] == Ups(s, ks, []) && ks[..n] == ks;
      n := n + m;
    }
  }

  lemma GoesLength(ms: seq<Message>, n: nat, accepts: nat, hasSender: bool)
    requires Goes(ms, n, accepts, hasSender)
    ensures n <= |ms| && (n == 0 || n <= accepts)
  {
    hide MessageError;
    if n > 0 {
      assert n - 1 < accepts by { var m := ms[n - 1]; }
    }
  }

  // ----- losing focus, disconnecting

  /** Losing the focus releases everything held and then says so; whatever fails ends the
      connection. Any other change of focus is noted, and none is on a closed connection. */
  lemma FocusExactly(s: State, focused: bool, accepts: nat) returns (ks: seq<nat>, bs: seq<nat>, n: nat)
    ensures Lists(ks, s.keys.Keys) && Lists(bs, s.buttons)
    ensures var r, all := Perform(s, SetFocused(focused), accepts), Ups(s, ks, bs);
            if !s.connected then Nothing(s, accepts, r)
            else if focused || !s.focused then r == Result(s.(focused := focused), [], accepts, false)
            else
              && Released(s, ks, bs, n, accepts, ReleaseAll(s, accepts))
              && (if n == |all| && s.hasSender && n < accepts then
                    && !r.failed && r.sent == all + [FocusLost(s.generation, s.sequence + 1 + n)]
                    && r.state == s.(sequence := s.sequence + n + 1, keys := map[], buttons := {}, focused := false)
                  else r.failed && r.sent == all[..n] && !r.state.connected && r.state.sequence == s.sequence + n)
  {
    hide MessageError, ReleaseAll, Goes;
    ks, bs, n := ReleaseExactly(s, accepts);
    if n == |ks| + |bs| {
      assert Ups(s, ks, bs)[..n] == Ups(s, ks, bs);
      assert ks[..|ks|] == ks && bs[..|bs|] == bs;
      assert s.keys - SetOf(ks) == map[] && s.buttons - SetOf(bs) == {};
    }
    GoesLength(Ups(s, ks, bs), n, accepts, s.hasSender);
  }

  /** Disconnecting releases what it can and forgets the connection either way. */
  lemma DisconnectExactly(s: State, accepts: nat) returns (ks: seq<nat>, bs: seq<nat>, n: nat)
    ensures Lists(ks, s.keys.Keys) && Lists(bs, s.buttons)
    ensures var r := Perform(s, Disconnect, accepts);
            if !s.connected then Nothing(s, accepts, r)
            else
              && Released(s, ks, bs, n, accepts, r.(state := ReleaseAll(s, accepts).state))
              && r.state == ReleaseAll(s, accepts).state.(connected := false, focused := false)
  {
    hide MessageError, ReleaseAll, Goes;
    ks, bs, n := ReleaseExactly(s, accepts);
  }

  // ----- what sends nothing

  /** A sender or a display takes the place of the one before; Connect starts over unfocused with
      nothing held. None of them sends. */
  lemma SettersExactly(s: State, present: bool, generation: nat, width: nat, height: nat, accepts: nat)
    ensures var r := Perform(s, SetSender(present), accepts);
            r.sent == [] && !r.failed && r.left == accepts && r.state == s.(hasSender := present)
    ensures var r := Perform(s, SetDisplay(generation, width, height), accepts);
            && r.sent == [] && !r.failed && r.left == accepts
            && r.state.generation == generation && r.state.width == width && r.state.height == height
            && s == r.state.(generation := s.generation, width := s.width, height := s.height)
    ensures var r := Perform(s, Connect, accepts);
            && r.sent == [] && !r.failed && r.left == accepts
            && r.state.connected && !r.state.focused && |r.state.keys| == 0 && |r.state.buttons| == 0
            && s == r.state.(connected := s.connected, focused := s.focused, keys := s.keys, buttons := s.buttons)
  {
  }
}
