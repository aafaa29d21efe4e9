/** The host service as a state machine: captures out, input in. */
module Host {
  import opened Types
  import opened Raster
  import opened Messages
  import opened Validation
  import opened Packer
  import opened Damage
  import opened Downscale
  import Pointer

  const SECOND: int := 1_000_000_000

  /** limits and damage are already the effective ones; codecs are the abstract zlib and hash. */
  datatype Setup = Setup(version: nat, limits: Limits, damage: Config, codecs: Codecs,
                         enableInput: bool, maxInputPerSecond: nat)

  /** NewService's normalization of its configuration. */
  function Configured(version: nat, limits: Limits, damage: Config, codecs: Codecs,
                      enableInput: bool, maxInputPerSecond: nat): Setup {
    var effective := Bounded(limits);
    Setup(if version == VERSION2 then VERSION2 else VERSION1, effective, Normalize(damage, effective), codecs,
          enableInput, if maxInputPerSecond == 0 then 500 else maxInputPerSecond)
  }

  predicate SetupOk(c: Setup) {
    && ConfigOk(c.damage) && c.limits == Bounded(c.limits) && 0 < c.maxInputPerSecond
    && c.damage.maxRectangles <= c.limits.maxRectangles
  }

  lemma ConfiguredIsOk(version: nat, limits: Limits, damage: Config, codecs: Codecs,
                       enableInput: bool, maxInputPerSecond: nat)
    ensures SetupOk(Configured(version, limits, damage, codecs, enableInput, maxInputPerSecond))
  {
    NormalizeIsOk(damage, Bounded(limits));
  }

  datatype State =
    State(memory: Memory, generation: nat, width: nat, height: nat, nativeWidth: nat, nativeHeight: nat,
          keyframeRequested: bool, lastInputSeq: nat,
          windowStart: Option<int>, windowCount: nat, drops: nat)

  const START := State(NO_MEMORY, 0, 0, 0, 0, 0, false, 0, None, 0, 0)

  // ----- sending captures

  datatype Plan = Whole(frame: Frame) | Parts(parts: seq<FramePart>)

  /** Decides how a frame goes on the wire before anything is announced. */
  function PlanFrame(f: Frame, c: Setup): Result<Plan, Error> {
    if c.version != VERSION2 then Ok(Whole(f))
    else match Split(f, c.limits)
         case Ok(parts) => Ok(Parts(parts))
         case Err(e) => if e == FrameFits then Ok(Whole(f)) else Err(e)
  }

  function PlanMessages(p: Plan): seq<Message> {
    match p
    case Whole(f) => [WholeFrame(f)]
    case Parts(parts) => seq(|parts|, k requires 0 <= k < |parts| => Part(parts[k]))
  }

  /** The encoder's verdict on one outgoing message. */
  function SendError(m: Message, c: Setup): Option<Error> {
    if MessageError(m, c.limits).Some? then MessageError(m, c.limits)
    else if RequiresVersion2(TypeOf(m)) && c.version < VERSION2 then Some(BadVersion)
    else None
  }

  /** Sends in order and stops at the first refused message. */
  function SendAll(ms: seq<Message>, c: Setup): (seq<Message>, Option<Error>) {
    if ms == [] then ([], None)
    else if SendError(ms[0], c).Some? then ([], SendError(ms[0], c))
    else
      var (rest, err) := SendAll(ms[1..], c);
      ([ms[0]] + rest, err)
  }

  /** What the transform asks of a capture: nothing when it leaves the capture alone, and
      otherwise that every byte its averaging loops read exists. */
  predicate Takes(image: Image, c: Setup) {
    c.version == VERSION2
    || Factor(image.width, image.height, c.damage.maxRectangleBytes) == 0
    || Readable(image, Factor(image.width, image.height, c.damage.maxRectangleBytes))
  }

  /** v1 sees a capture its single frame can carry; v2 sees the capture itself. */
  function Prepare(image: Image, c: Setup): (out: Image)
    requires Takes(image, c)
    ensures WellSized(image) ==> WellSized(out)
  {
    if c.version == VERSION2 then image
    else Downscaled(image, Factor(image.width, image.height, c.damage.maxRectangleBytes))
  }

  lemma WellSizedIsTaken(image: Image, c: Setup)
    requires WellSized(image)
    ensures Takes(image, c)
  {
    WellSizedReadable(image, Factor(image.width, image.height, c.damage.maxRectangleBytes));
  }

  /** Announces a new geometry if there is one, then sends the planned frame. */
  function Announce(h: State, f: Frame, plan: Plan, width: nat, height: nat, c: Setup)
    : (State, seq<Message>, Option<Error>)
  {
    if f.header.generation == h.generation then
      var (sent, err) := SendAll(PlanMessages(plan), c);
      (h, sent, err)
    else
      var config := Display(DisplayConfig(f.header.generation, width, height, 0, 0, PIXEL_BGRA8888));
      if SendError(config, c).Some? then (h, [], SendError(config, c))
      else
        var (sent, err) := SendAll(PlanMessages(plan), c);
        (h.(generation := f.header.generation, width := width, height := height, lastInputSeq := 0),
         [config] + sent, err)
  }

  /** One capture, from raw image to the messages handed to the peer. */
  function SendCapture(h: State, image: Image, force: bool, c: Setup): (State, seq<Message>, Option<Error>)
    requires SetupOk(c) && MemoryOk(h.memory, c.damage, c.codecs.hash)
    requires Takes(image, c)
  {
    var prepared := Prepare(image, c);
    var (memory, r) := Compare(h.memory, prepared, force || h.keyframeRequested, c.damage, c.codecs);
    var h' := h.(memory := memory, keyframeRequested := false,
                 nativeWidth := image.width, nativeHeight := image.height);
    match r
    case Err(e) => (h', [], Some(e))
    case Ok(None) => (h', [], None)
    case Ok(Some(frame)) =>
      match PlanFrame(frame, c)
      case Err(e) => (h', [], Some(e))
      case Ok(plan) => Announce(h', frame, plan, prepared.width, prepared.height, c)
  }

  /** The capture's comparison is what is remembered, and nothing goes out without a frame. */
  lemma SendCaptureMemory(h: State, image: Image, force: bool, c: Setup)
    requires SetupOk(c) && MemoryOk(h.memory, c.damage, c.codecs.hash) && Takes(image, c)
    ensures var (h', sent, err) := SendCapture(h, image, force, c);
            var (m', r) := Compare(h.memory, Prepare(image, c), force || h.keyframeRequested, c.damage, c.codecs);
            && h'.memory == m' && MemoryOk(m', c.damage, c.codecs.hash)
            && (err == None ==> r.Ok?) && (r == Ok(None) ==> sent == [])
  {
    hide Compare, PlanFrame, SendAll, MemoryOk;
    CompareKeepsMemory(h.memory, Prepare(image, c), force || h.keyframeRequested, c.damage, c.codecs);
  }

  // ----- receiving input

  datatype Injected =
    | InjectKey(usage: nat, action: nat, modifiers: nat)
    | InjectMove(x: nat, y: nat)
    | InjectButton(button: nat, action: nat)
    | InjectWheel(horizontal: int, vertical: int)
    | InjectReleaseAll

  /** What one received message makes the host do. */
  datatype Reaction =
    | Resync
    | Answer(nonce: nat)
    | Noted
    | Accepted(injected: Injected)
    | AcceptedOutside
    | Dropped
    | Refused

  /** Generation and sequence of an input event. */
  function InputHeader(m: Message): Option<(nat, nat)> {
    match m
    case Key(g, s, _, _, _) => Some((g, s))
    case PointerMove(g, s, _, _) => Some((g, s))
    case PointerButton(g, s, _, _) => Some((g, s))
    case PointerWheel(g, s, _, _) => Some((g, s))
    case FocusLost(g, s) => Some((g, s))
    case _ => None
  }

  function Inject(h: State, m: Message): Reaction
    requires InputHeader(m).Some?
  {
    match m
    case Key(_, _, usage, action, modifiers) => Accepted(InjectKey(usage, action, modifiers))
    case PointerMove(_, _, x, y) =>
      if x >= h.width || y >= h.height then AcceptedOutside
      else Accepted(InjectMove(Pointer.Remap(x, h.width, h.nativeWidth), Pointer.Remap(y, h.height, h.nativeHeight)))
    case PointerButton(_, _, button, action) => Accepted(InjectButton(button, action))
    case PointerWheel(_, _, horizontal, vertical) => Accepted(InjectWheel(horizontal, vertical))
    case FocusLost(_, _) => Accepted(InjectReleaseAll)
  }

  /** Whether an input event gets as far as the rate limiter. */
  predicate PassesHeader(h: State, m: Message, c: Setup) {
    && c.enableInput && InputHeader(m).Some? && MessageError(m, c.limits) == None
    && InputHeader(m).value.0 == h.generation && h.lastInputSeq < InputHeader(m).value.1
  }

  function HandleInput(h: State, m: Message, now: int, c: Setup): (State, Reaction) {
    if m.KeyframeRequest? then (h.(keyframeRequested := true), Resync)
    else if m.Ping? then (h, Answer(m.nonce))
    else if m.Pong? then (h, Noted)
    else if !PassesHeader(h, m, c) then (h, Refused)
    else
      var opens := h.windowStart == None || now - h.windowStart.value >= SECOND;
      var h1 := if opens then h.(windowStart := Some(now), windowCount := 0) else h;
      if h1.windowCount >= c.maxInputPerSecond then (h1.(drops := h1.drops + 1), Dropped)
      else
        var h2 := h1.(windowCount := h1.windowCount + 1, lastInputSeq := InputHeader(m).value.1);
        (h2, Inject(h2, m))
  }

  // ----- what happens to a host

  /** A capture taken off the one-slot mailbox, with the heartbeats other threads send ahead
      of each of its messages; a heartbeat on its own; or a message from the client. */
  datatype Happening =
    | Taken(image: Image, force: bool, beats: seq<seq<Message>>)
    | Beat(message: Message)
    | Received(message: Message, now: int)

  ghost predicate Heartbeats(ms: seq<Message>) {
    forall k :: 0 <= k < |ms| ==> ms[k].Ping? || ms[k].Pong?
  }

  /** A capture the transform can read, and heartbeats that are heartbeats. */
  ghost predicate Allowed(x: Happening, c: Setup) {
    match x
    case Taken(image, _, beats) => Takes(image, c) && forall j :: 0 <= j < |beats| ==> Heartbeats(beats[j])
    case Beat(m) => m.Ping? || m.Pong?
    case Received(_, _) => true
  }

  ghost predicate Possible(hs: seq<Happening>, c: Setup) {
    forall k :: 0 <= k < |hs| ==> Allowed(hs[k], c)
  }
}
