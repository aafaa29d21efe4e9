/** The client's input bookkeeping, updated in place around a sender that may fail. */
module InputState {
  import opened Messages
  import opened Validation
  import CI = ClientInput

  /** Takes the next `accepts` messages and refuses every later one. */
  class Sender {
    var accepts: nat
    var taken: seq<Message>

    constructor (accepts: nat)
      ensures this.accepts == accepts && taken == []
    {
      this.accepts, taken := accepts, [];
    }

    method Send(m: Message) returns (ok: bool)
      modifies this
      ensures ok == (old(accepts) > 0)
      ensures ok ==> accepts == old(accepts) - 1 && taken == old(taken) + [m]
      ensures !ok ==> accepts == 0 && taken == old(taken)
    {
      ok := accepts > 0;
      if ok {
        accepts, taken := accepts - 1, taken + [m];
      }
    }
  }

  class InputState {
    var sender: Sender?
    var generation: nat
    var width: nat
    var height: nat
    var sequence: nat
    var focused: bool
    var connected: bool
    var keys: map<nat, nat>
    var buttons: set<nat>

    function Model(): CI.State
      reads this
    {
      CI.State(generation, width, height, sequence, focused, connected, sender != null, keys, buttons)
    }

    ghost function Budget(): nat
      reads this, sender
    {
      if sender == null then 0 else sender.accepts
    }

    ghost function Taken(): seq<Message>
      reads this, sender
    {
      if sender == null then [] else sender.taken
    }

    /** The operation did what r says, starting from a sender that had taken `before`. */
    ghost predicate Did(r: CI.Result, before: seq<Message>, failed: bool)
      reads this, sender
    {
      Model() == r.state && Taken() == before + r.sent && Budget() == r.left && failed == r.failed
    }

    constructor (sender: Sender?)
      ensures this.sender == sender && sequence == 0 && connected && !focused && keys == map[] && buttons == {}
      ensures CI.Consistent(Model(), [])
    {
      this.sender := sender;
      generation, width, height, sequence := 0, 0, 0, 0;
      focused, connected, keys, buttons := false, true, map[], {};
      new;
      CI.NothingDown();
    }

    method SetSender(sender: Sender?)
      modifies this
      ensures this.sender == sender
      ensures Model() == CI.Perform(old(Model()), CI.SetSender(sender != null), 0).state
    {
      this.sender := sender;
    }

    method SetDisplay(generation: nat, width: nat, height: nat)
      modifies this
      ensures sender == old(sender)
      ensures Model() == CI.Perform(old(Model()), CI.SetDisplay(generation, width, height), 0).state
    {
      this.generation, this.width, this.height := generation, width, height;
    }

    method Connect()
      modifies this
      ensures sender == old(sender)
      ensures Model() == CI.Perform(old(Model()), CI.Connect, 0).state
    {
      connected, focused := true, false;
      keys, buttons := map[], {};
    }

    method SendLocked(m: Message) returns (failed: bool)
      modifies this, sender
      ensures sender == old(sender) && Did(CI.Send(old(Model()), m, old(Budget())), old(Taken()), failed)
    {
      if sender == null {
        return true;
      }
      var ok := sender.Send(m);
      if !ok {
        return true;
      }
      sequence := sequence + 1;
      return false;
    }

    method ValidateAndSend(m: Message) returns (failed: bool)
      modifies this, sender
      ensures sender == old(sender) && Did(CI.ValidateAndSend(old(Model()), m, old(Budget())), old(Taken()), failed)
    {
      hide MessageError;
      var invalid := ValidateMessage(m, DEFAULT_LIMITS);
      if invalid.Some? {
        return true;
      }
      failed := SendLocked(m);
    }

    method Key(usage: nat, action: nat, modifiers: nat) returns (failed: bool)
      modifies this, sender
      ensures sender == old(sender)
      ensures Did(CI.Perform(old(Model()), CI.PressKey(usage, action, modifiers), old(Budget())), old(Taken()), failed)
    {
      hide CI.ValidateAndSend;
      if !CI.Active(Model()) {
        return false;
      }
      var held := usage in keys;
      if (action == CI.DOWN && held) || (action == CI.UP && !held) {
        return false;
      }
      failed := ValidateAndSend(CI.KeyMessage(Model(), usage, action, modifiers));
      if failed {
        return;
      }
      if action == CI.DOWN {
        keys := keys[usage := modifiers];
      } else {
        keys := keys - {usage};
      }
    }

    method Button(button: nat, action: nat) returns (failed: bool)
      modifies this, sender
      ensures sender == old(sender)
      ensures Did(CI.Perform(old(Model()), CI.PressButton(button, action), old(Budget())), old(Taken()), failed)
    {
      hide CI.ValidateAndSend;
      if !CI.Active(Model()) {
        return false;
      }
      var held := button in buttons;
      if (action == CI.DOWN && held) || (action == CI.UP && !held) {
        return false;
      }
      failed := ValidateAndSend(CI.ButtonMessage(Model(), button, action));
      if failed {
        return;
      }
      if action == CI.DOWN {
        buttons := buttons + {button};
      } else {
        buttons := buttons - {button};
      }
    }

    /** A pointer position already mapped into the remote display. */
    method Pointer(x: nat, y: nat) returns (failed: bool)
      modifies this, sender
      ensures sender == old(sender)
      ensures Did(CI.Perform(old(Model()), CI.MovePointer(x, y), old(Budget())), old(Taken()), failed)
    {
      hide CI.ValidateAndSend;
      if !CI.Active(Model()) {
        return false;
      }
      failed := ValidateAndSend(PointerMove(generation, sequence + 1, x, y));
    }

    method Wheel(horizontal: int, vertical: int) returns (failed: bool)
      modifies this, sender
      ensures sender == old(sender)
      ensures Did(CI.Perform(old(Model()), CI.TurnWheel(horizontal, vertical), old(Budget())), old(Taken()), failed)
    {
      hide CI.ValidateAndSend;
      if !CI.Active(Model()) {
        return false;
      }
      failed := ValidateAndSend(PointerWheel(generation, sequence + 1, horizontal, vertical));
    }

    // ----- releasing

    static method FindLeast(s: set<nat>) returns (m: nat)
      requires s != {}
      ensures m == CI.Least(s)
    {
      m :| m in s;
      var rest := s - {m};
      while rest != {}
        invariant rest <= s && m in s && forall x :: x in s && x !in rest ==> m <= x
        decreases rest
      {
        var x :| x in rest;
        if x < m {
          m := x;
        }
        rest := rest - {x};
      }
    }

    /** Sends the Up of the least held key. */
    method ReleaseKey() returns (failed: bool)
      requires keys != map[]
      modifies this, sender
      ensures sender == old(sender)
      ensures Did(CI.ReleaseKey(old(Model()), old(Budget())), old(Taken()), failed)
    {
      hide CI.ValidateAndSend;
      var k := FindLeast(keys.Keys);
      failed := ValidateAndSend(CI.KeyMessage(Model(), k, CI.UP, keys[k]));
      if !failed {
        assert (keys - {k}).Keys == keys.Keys - {k};
        keys := keys - {k};
      }
    }

    method ReleaseButton() returns (failed: bool)
      requires buttons != {}
      modifies this, sender
      ensures sender == old(sender)
      ensures Did(CI.ReleaseButton(old(Model()), old(Budget())), old(Taken()), failed)
    {
      hide CI.ValidateAndSend;
      var b := FindLeast(buttons);
      failed := ValidateAndSend(CI.ButtonMessage(Model(), b, CI.UP));
      if !failed {
        buttons := buttons - {b};
      }
    }

    method ReleaseKeys() returns (failed: bool)
      modifies this, sender
      ensures sender == old(sender) && Did(CI.ReleaseKeys(old(Model()), old(Budget())), old(Taken()), failed)
    {
      hide CI.ReleaseKey;
      ghost var sent: seq<Message> := [];
      while keys != map[]
        invariant sender == old(sender) && Taken() == old(Taken()) + sent
        invariant var rest := CI.ReleaseKeys(Model(), Budget());
                  CI.ReleaseKeys(old(Model()), old(Budget())) == rest.(sent := sent + rest.sent)
        decreases keys.Keys
      {
        ghost var r := CI.ReleaseKey(Model(), Budget());
        ghost var rest := CI.ReleaseKeys(r.state, r.left);
        AppendTwice(old(Taken()), sent, r.sent, rest.sent);
        failed := ReleaseKey();
        if failed {
          return;
        }
        sent := sent + r.sent;
      }
      assert sent + [] == sent;
      return false;
    }

    method ReleaseButtons() returns (failed: bool)
      modifies this, sender
      ensures sender == old(sender) && Did(CI.ReleaseButtons(old(Model()), old(Budget())), old(Taken()), failed)
    {
      hide CI.ReleaseButton;
      ghost var sent: seq<Message> := [];
      while buttons != {}
        invariant sender == old(sender) && Taken() == old(Taken()) + sent
        invariant var rest := CI.ReleaseButtons(Model(), Budget());
                  CI.ReleaseButtons(old(Model()), old(Budget())) == rest.(sent := sent + rest.sent)
        decreases buttons
      {
        ghost var r := CI.ReleaseButton(Model(), Budget());
        ghost var rest := CI.ReleaseButtons(r.state, r.left);
        AppendTwice(old(Taken()), sent, r.sent, rest.sent);
        failed := ReleaseButton();
        if failed {
          return;
        }
        sent := sent + r.sent;
      }
      assert sent + [] == sent;
      return false;
    }

    method ReleaseAll() returns (failed: bool)
      modifies this, sender
      ensures sender == old(sender) && Did(CI.ReleaseAll(old(Model()), old(Budget())), old(Taken()), failed)
    {
      hide CI.ReleaseKeys, CI.ReleaseButtons;
      failed := ReleaseKeys();
      if failed {
        return;
      }
      ghost var r := CI.ReleaseKeys(old(Model()), old(Budget()));
      ghost var q := CI.ReleaseButtons(r.state, r.left);
      AppendTwice([], old(Taken()), r.sent, q.sent);
      failed := ReleaseButtons();
    }

    method SetFocused(focused: bool) returns (failed: bool)
      modifies this, sender
      ensures sender == old(sender)
      ensures Did(CI.Perform(old(Model()), CI.SetFocused(focused), old(Budget())), old(Taken()), failed)
    {
      hide CI.ReleaseAll, CI.Send;
      if !connected {
        return false;
      }
      if !focused && this.focused {
        failed := ReleaseAll();
        if failed {
          connected := false;
          return;
        }
        ghost var r := CI.ReleaseAll(old(Model()), old(Budget()));
        var m := FocusLost(generation, sequence + 1);
        AppendTwice([], old(Taken()), r.sent, CI.Send(r.state, m, r.left).sent);
        failed := SendLocked(m);
        if failed {
          connected := false;
          return;
        }
      }
      this.focused := focused;
      return false;
    }

    method Disconnect() returns (failed: bool)
      modifies this, sender
      ensures sender == old(sender)
      ensures Did(CI.Perform(old(Model()), CI.Disconnect, old(Budget())), old(Taken()), failed)
    {
      hide CI.ReleaseAll;
      if !connected {
        return false;
      }
      failed := ReleaseAll();
      connected, focused := false, false;
    }
  }

  lemma AppendTwice(taken: seq<Message>, sent: seq<Message>, a: seq<Message>, b: seq<Message>)
    ensures sent + (a + b) == sent + a + b
    ensures taken + (sent + a) == taken + sent + a
  {
  }
}
