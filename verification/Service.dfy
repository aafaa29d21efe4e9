/** The host service: one detector, one peer, and the input rate limiter. */
module Service {
  import opened Types
  import opened Messages
  import opened Validation
  import opened Packer
  import opened Damage
  import opened Downscale
  import Detector
  import Pointer
  import opened Host

  lemma SendSingle(plan: Plan, c: Setup)
    requires plan.Whole?
    ensures var m := WholeFrame(plan.frame);
            SendAll(PlanMessages(plan), c) == if SendError(m, c).Some? then ([], SendError(m, c)) else ([m], None)
  {
    hide SendError;
    var m := WholeFrame(plan.frame);
    assert [m][1..] == [] && [m] + [] == [m];
  }

  class Service {
    const setup: Setup
    const detector: Detector.Detector
    var generation: nat
    var width: nat
    var height: nat
    var nativeWidth: nat
    var nativeHeight: nat
    var keyframeRequested: bool
    var lastInputSeq: nat
    var rateWindowStart: Option<int>
    var rateCount: nat
    var rateDrops: nat

    function Model(): State
      reads this, detector
    {
      Host.State(detector.Remembered(), generation, width, height, nativeWidth, nativeHeight,
                 keyframeRequested, lastInputSeq, rateWindowStart, rateCount, rateDrops)
    }

    ghost predicate Valid()
      reads this, detector
    {
      && SetupOk(setup) && detector.Valid()
      && detector.config == setup.damage && detector.codecs == setup.codecs
    }

    constructor (setup: Setup, detector: Detector.Detector)
      requires SetupOk(setup) && detector.Valid() && detector.Remembered() == NO_MEMORY
      requires detector.config == setup.damage && detector.codecs == setup.codecs
      ensures Valid() && Model() == START && this.setup == setup && this.detector == detector
    {
      this.setup, this.detector := setup, detector;
      generation, width, height, nativeWidth, nativeHeight := 0, 0, 0, 0, 0;
      keyframeRequested, lastInputSeq := false, 0;
      rateWindowStart, rateCount, rateDrops := None, 0, 0;
    }

    method PrepareCapture(image: Image) returns (prepared: Image)
      requires Takes(image, setup)
      ensures prepared == Prepare(image, setup)
    {
      if setup.version == VERSION2 {
        return image;
      }
      var k := DownscaleFactor(image.width, image.height, setup.damage.maxRectangleBytes);
      if k == 0 {
        return image;
      }
      prepared := DownscaleImage(image, k);
    }

    method MakePlan(frame: Frame) returns (plan: Result<Plan, Error>)
      ensures plan == PlanFrame(frame, setup)
    {
      if setup.version != VERSION2 {
        return Ok(Whole(frame));
      }
      var parts := SplitFrame(frame, setup.limits);
      match parts
      case Ok(ps) => return Ok(Parts(ps));
      case Err(e) =>
        if e == FrameFits {
          return Ok(Whole(frame));
        }
        return Err(e);
    }

    /** The encoder's checks; an accepted message goes to the peer. */
    method Send(m: Message) returns (err: Option<Error>)
      ensures err == SendError(m, setup)
    {
      err := ValidateMessage(m, setup.limits);
      if err == None && RequiresVersion2(TypeOf(m)) && setup.version < VERSION2 {
        return Some(BadVersion);
      }
    }

    method SendPlan(plan: Plan) returns (sent: seq<Message>, err: Option<Error>)
      ensures (sent, err) == SendAll(PlanMessages(plan), setup)
    {
      hide SendError;
      sent := [];
      if plan.Whole? {
        SendSingle(plan, setup);
        err := Send(WholeFrame(plan.frame));
        if err.Some? {
          return;
        }
        return [WholeFrame(plan.frame)], None;
      }
      ghost var ms := PlanMessages(plan);
      assert ms[0..] == ms && [] + SendAll(ms, setup).0 == SendAll(ms, setup).0;
      for i := 0 to |plan.parts|
        invariant SendAll(ms, setup) == (sent + SendAll(ms[i..], setup).0, SendAll(ms[i..], setup).1)
      {
        assert ms[i..][0] == Part(plan.parts[i]) && ms[i..][1..] == ms[i + 1..];
        err := Send(Part(plan.parts[i]));
        if err.Some? {
          assert sent + [] == sent;
          return;
        }
        assert sent + ([Part(plan.parts[i])] + SendAll(ms[i + 1..], setup).0)
               == sent + [Part(plan.parts[i])] + SendAll(ms[i + 1..], setup).0;
        sent := sent + [Part(plan.parts[i])];
      }
      assert sent + [] == sent;
      return sent, None;
    }

    /** One capture: fold a pending request into force, transform, compare, plan, and only
        then announce and send. */
    method SendCapture(image: Image, force: bool) returns (sent: seq<Message>, err: Option<Error>)
      requires Valid() && Takes(image, setup)
      modifies this, detector
      ensures Valid()
      ensures (Model(), sent, err) == Host.SendCapture(old(Model()), image, force, setup)
    {
      hide Compare, Prepare, PlanFrame, SendAll, SendError, MemoryOk;
      var forced := force || keyframeRequested;
      keyframeRequested := false;
      var prepared := PrepareCapture(image);
      nativeWidth, nativeHeight := image.width, image.height;
      var r := detector.Compare(prepared, forced);
      if r.Err? {
        return [], Some(r.error);
      }
      if r.value == None {
        return [], None;
      }
      var frame := r.value.value;
      var plan := MakePlan(frame);
      if plan.Err? {
        return [], Some(plan.error);
      }
      var announced: seq<Message> := [];
      if frame.header.generation != generation {
        var config := Display(DisplayConfig(frame.header.generation, prepared.width, prepared.height, 0, 0, PIXEL_BGRA8888));
        err := Send(config);
        if err.Some? {
          return [], err;
        }
        announced := [config];
        generation, width, height := frame.header.generation, prepared.width, prepared.height;
        lastInputSeq := 0;
      }
      sent, err := SendPlan(plan.value);
      assert [] + sent == sent;
      sent := announced + sent;
    }

    /** Control messages first; input passes the header check, then the rate limiter. */
    method HandleInput(m: Message, now: int) returns (reaction: Reaction)
      requires Valid()
      modifies this
      ensures Valid() && (Model(), reaction) == Host.HandleInput(old(Model()), m, now, setup)
    {
      hide MessageError, MemoryOk, Pointer.Remap;
      match m {
        case KeyframeRequest(_) =>
          keyframeRequested := true;
          return Resync;
        case Ping(nonce) => return Answer(nonce);
        case Pong(_) => return Noted;
        case _ =>
      }
      if !setup.enableInput {
        return Refused;
      }
      var header := InputHeader(m);
      if header == None {
        return Refused;
      }
      var invalid := ValidateMessage(m, setup.limits);
      if invalid.Some? {
        return Refused;
      }
      if header.value.0 != generation || header.value.1 <= lastInputSeq {
        return Refused;
      }
      var admitted := Admit(header.value.1, now);
      if !admitted {
        return Dropped;
      }
      reaction := Deliver(m);
    }

    /** The rate limiter: counts the event into its window, or drops it. */
    method Admit(sequence: nat, now: int) returns (admitted: bool)
      requires Valid()
      modifies this
      ensures Valid()
      ensures var h := old(Model());
              var opens := h.windowStart == None || now - h.windowStart.value >= SECOND;
              var h1 := if opens then h.(windowStart := Some(now), windowCount := 0) else h;
              && admitted == (h1.windowCount < setup.maxInputPerSecond)
              && Model() == if admitted then h1.(windowCount := h1.windowCount + 1, lastInputSeq := sequence)
                            else h1.(drops := h1.drops + 1)
    {
      hide MemoryOk;
      if rateWindowStart == None || now - rateWindowStart.value >= SECOND {
        rateWindowStart, rateCount := Some(now), 0;
      }
      if rateCount >= setup.maxInputPerSecond {
        rateDrops := rateDrops + 1;
        return false;
      }
      rateCount := rateCount + 1;
      lastInputSeq := sequence;
      return true;
    }

    method Deliver(m: Message) returns (reaction: Reaction)
      requires InputHeader(m).Some?
      ensures reaction == Inject(Model(), m)
    {
      match m {
        case Key(_, _, usage, action, modifiers) => return Accepted(InjectKey(usage, action, modifiers));
        case PointerMove(_, _, x, y) =>
          if x >= width || y >= height {
            return AcceptedOutside;
          }
          return Accepted(InjectMove(Pointer.Remap(x, width, nativeWidth), Pointer.Remap(y, height, nativeHeight)));
        case PointerButton(_, _, button, action) => return Accepted(InjectButton(button, action));
        case PointerWheel(_, _, horizontal, vertical) => return Accepted(InjectWheel(horizontal, vertical));
        case FocusLost(_, _) => return Accepted(InjectReleaseAll);
      }
    }
  }
}
