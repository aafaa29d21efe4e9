/** What the host does with a message, told from the message, what happened before it and the
    clock. */
module Reactions {
  import opened Types
  import opened Raster
  import opened Geometry
  import opened Tiling
  import opened Messages
  import opened Validation
  import opened Damage
  import opened Downscale
  import opened Host
  import opened HostInput
  import Pointer

  // ----- where a move lands

  /** At most half a step from the exact value, and on a tie above it. */
  predicate Rounds(got: nat, exact: nat, step: nat) {
    -(step as int) < 2 * (got - exact) <= step
  }

  /** Of all native positions, got is the nearest to where value lies on the line through both
      ends, and the upper one of two equally near. */
  predicate Nearest(value: nat, advertised: nat, native: nat, got: nat) {
    && got < native
    && (if advertised <= 1 then got == 0 else Rounds(got * (advertised - 1), value * (native - 1), advertised - 1))
  }

  lemma OneMultiple(a: nat, b: nat, s: nat, exact: nat)
    requires 0 < s && Rounds(a * s, exact, s) && Rounds(b * s, exact, s)
    ensures a == b
  {
    if a < b {
      MulStep(a, b, s);
    } else if b < a {
      MulStep(b, a, s);
    }
  }

  /** Only one position is nearest. */
  lemma NearestIsUnique(value: nat, advertised: nat, native: nat, got: nat, other: nat)
    requires Nearest(value, advertised, native, got) && Nearest(value, advertised, native, other)
    ensures got == other
  {
    hide Rounds;
    if 1 < advertised {
      OneMultiple(got, other, advertised - 1, value * (native - 1));
    }
  }

  /** Ends go to ends, and equal sizes change nothing. */
  lemma NearestKeepsEnds(value: nat, advertised: nat, native: nat, got: nat)
    requires value < advertised && Nearest(value, advertised, native, got)
    ensures value == 0 ==> got == 0
    ensures 1 < advertised && value == advertised - 1 ==> got == native - 1
    ensures advertised == native ==> got == value
  {
    if 1 < advertised {
      OnTheLine(value, advertised, native, got, 0);
      OnTheLine(value, advertised, native, got, native - 1);
      if advertised == native {
        OnTheLine(value, advertised, native, got, value);
      }
    }
  }

  lemma OnTheLine(value: nat, advertised: nat, native: nat, got: nat, other: nat)
    requires 1 < advertised && value < advertised && Nearest(value, advertised, native, got) && other < native
    ensures value == 0 && other == 0 ==> got == other
    ensures value == advertised - 1 && other == native - 1 ==> got == other
    ensures advertised == native && other == value ==> got == other
  {
    hide Rounds;
    if (value == 0 && other == 0) || (value == advertised - 1 && other == native - 1)
       || (advertised == native && other == value) {
      var s := advertised - 1;
      assert other * s == value * (native - 1);
      NoOffset(other * s, s);
      OneMultiple(got, other, s, other * s);
    }
  }

  lemma NoOffset(exact: nat, step: nat)
    requires 0 < step
    ensures Rounds(exact, exact, step)
  {
  }

  lemma RemapNearest(value: nat, advertised: nat, native: nat)
    requires value < advertised && 0 < native
    ensures Nearest(value, advertised, native, Pointer.Remap(value, advertised, native))
  {
    if advertised > 1 {
      Pointer.RemapIsNearest(value, advertised, native);
    }
  }

  // ----- one message

  /** An input event in the host's hands: whether it is one, and its generation and sequence. */
  predicate Event(m: Message, generation: nat, sequence: nat) {
    match m
    case Key(g, s, _, _, _) => g == generation && s == sequence
    case PointerMove(g, s, _, _) => g == generation && s == sequence
    case PointerButton(g, s, _, _) => g == generation && s == sequence
    case PointerWheel(g, s, _, _) => g == generation && s == sequence
    case FocusLost(g, s) => g == generation && s == sequence
    case _ => false
  }

  /** What is injected for an event that was let through: exactly what it says, a move nearest
      to where it points, and nothing for a move outside the advertised display. */
  predicate Means(m: Message, r: Reaction, width: nat, height: nat, nativeWidth: nat, nativeHeight: nat) {
    match m
    case Key(_, _, usage, action, modifiers) => r == Accepted(InjectKey(usage, action, modifiers))
    case PointerMove(_, _, x, y) =>
      if width <= x || height <= y then r == AcceptedOutside
      else
        && r.Accepted? && r.injected.InjectMove?
        && Nearest(x, width, nativeWidth, r.injected.x) && Nearest(y, height, nativeHeight, r.injected.y)
    case PointerButton(_, _, button, action) => r == Accepted(InjectButton(button, action))
    case PointerWheel(_, _, horizontal, vertical) => r == Accepted(InjectWheel(horizontal, vertical))
    case FocusLost(_, _) => r == Accepted(InjectReleaseAll)
    case _ => false
  }

  /** Input of the host's generation, numbered beyond the last accepted, while input is enabled. */
  ghost predicate LetIn(h: State, m: Message, c: Setup) {
    && c.enableInput && MessageError(m, c.limits) == None
    && exists s :: Event(m, h.generation, s) && h.lastInputSeq < s
  }

  /** The limiter's window has been open for less than a second and is full. */
  predicate Full(h: State, now: int, c: Setup) {
    h.windowStart.Some? && now < h.windowStart.value + 1_000_000_000 && c.maxInputPerSecond <= h.windowCount
  }

  lemma InputMeans(h: State, m: Message)
    requires InputHeader(m).Some? && 0 < h.nativeWidth && 0 < h.nativeHeight
    ensures Means(m, Inject(h, m), h.width, h.height, h.nativeWidth, h.nativeHeight)
    ensures WasAccepted(Inject(h, m))
  {
    hide Nearest;
    if m.PointerMove? && m.x < h.width && m.y < h.height {
      RemapNearest(m.x, h.width, h.nativeWidth);
      RemapNearest(m.y, h.height, h.nativeHeight);
    }
  }

  lemma LetInPasses(h: State, m: Message, c: Setup)
    ensures LetIn(h, m, c) <==> PassesHeader(h, m, c)
    ensures LetIn(h, m, c) ==> Event(m, h.generation, InputHeader(m).value.1)
  {
    hide MessageError;
    if PassesHeader(h, m, c) {
      assert Event(m, h.generation, InputHeader(m).value.1);
    }
  }

  /** Handling a message: which of its outcomes it has, what that injects or answers, and what
      changes in the host, for every host state, message, time and setup. */
  lemma HandledExactly(h: State, m: Message, now: int, c: Setup)
    requires 0 < c.maxInputPerSecond && 0 < h.nativeWidth && 0 < h.nativeHeight
    ensures var (h', r) := HandleInput(h, m, now, c);
            if m.KeyframeRequest? then r == Resync && h' == h.(keyframeRequested := true)
            else if m.Ping? then r == Answer(m.nonce) && h' == h
            else if m.Pong? then r == Noted && h' == h
            else
              && (r == Refused <==> !LetIn(h, m, c))
              && (r == Dropped <==> LetIn(h, m, c) && Full(h, now, c))
              && (r == Refused ==> h' == h)
              && (r == Dropped ==> h' == h.(drops := h.drops + 1))
              && (LetIn(h, m, c) && !Full(h, now, c) ==>
                    && Means(m, r, h.width, h.height, h.nativeWidth, h.nativeHeight)
                    && Event(m, h.generation, h'.lastInputSeq) && Counted(h, h', now))
  {
    hide MessageError, Inject, Means;
    LetInPasses(h, m, c);
    if PassesHeader(h, m, c) {
      var h' := HandleInput(h, m, now, c).0;
      InputMeans(h', m);
    }
  }

  /** An accepted event opens a window when none is open or the open one is a second old, and is
      counted in it; beside its own sequence nothing else changes. */
  predicate Counted(h: State, h': State, now: int) {
    && h' == h.(windowStart := h'.windowStart, windowCount := h'.windowCount, lastInputSeq := h'.lastInputSeq)
    && (if h.windowStart.Some? && now < h.windowStart.value + 1_000_000_000 then
          h'.windowStart == h.windowStart && h'.windowCount == h.windowCount + 1
        else h'.windowStart == Some(now) && h'.windowCount == 1)
  }

  // ----- over runs

  /** The dimensions announced for a capture: its own on v2. */
  function Advertised(native: (nat, nat), c: Setup): (nat, nat) {
    if c.version == VERSION2 then native
    else
      var k := Factor(native.0, native.1, c.damage.maxRectangleBytes);
      (Shift(native.0, k), Shift(native.1, k))
  }

  /** What the host announced last has the geometry of what it remembers. */
  predicate Aligned(h: State, native: (nat, nat), c: Setup) {
    && h.generation == h.memory.generation
    && (h.generation == 0 ==> h.memory.previous.pixels == [])
    && (h.generation > 0 ==>
          && h.memory.previous.width == h.width && h.memory.previous.height == h.height
          && (h.width, h.height) == Advertised(native, c))
  }

  lemma PreparedIsAdvertised(image: Image, c: Setup)
    requires Takes(image, c) && ValidImage(Prepare(image, c))
    ensures (Prepare(image, c).width, Prepare(image, c).height) == Advertised((image.width, image.height), c)
  {
    hide AllAverages, Readable, Factor;
    var k := Factor(image.width, image.height, c.damage.maxRectangleBytes);
    if c.version != VERSION2 {
      NoShift(image.width);
      NoShift(image.height);
      FactorLeavesSomething(image, c);
    }
  }

  lemma FactorLeavesSomething(image: Image, c: Setup)
    requires Takes(image, c) && c.version != VERSION2 && ValidImage(Prepare(image, c))
    ensures var k := Factor(image.width, image.height, c.damage.maxRectangleBytes);
            0 < Shift(image.width, k) && 0 < Shift(image.height, k)
  {
    hide AllAverages, Readable;
    PreparedIsNoLarger(image, c);
    SearchLeavesSomething(image.width, image.height, c.damage.maxRectangleBytes, 0);
  }

  lemma {:induction false} SearchLeavesSomething(width: nat, height: nat, budget: nat, k: nat)
    requires 0 < width && 0 < height && k <= 32
    requires if k == 0 then true else 0 < Shift(width, k - 1) && 0 < Shift(height, k - 1)
    ensures var f := FactorFrom(width, height, budget, k); 0 < Shift(width, f) && 0 < Shift(height, f)
    decreases 32 - k
  {
    hide Shift;
    NoShift(width);
    NoShift(height);
    if k < 32 && 0 < Shift(width, k) && 0 < Shift(height, k) {
      SearchLeavesSomething(width, height, budget, k + 1);
    }
  }

  lemma ComparedGeometry(m: Memory, image: Image, force: bool, c: Setup)
    requires SetupOk(c) && MemoryOk(m, c.damage, c.codecs.hash)
    requires m.generation == 0 ==> m.previous.pixels == []
    ensures var (m', r) := Compare(m, image, force, c.damage, c.codecs);
            r.Ok? ==>
              && ValidImage(image) && 0 < m'.generation
              && m'.previous.width == image.width && m'.previous.height == image.height
              && (r.value.Some? ==> r.value.value.header.generation == m'.generation)
              && (m'.generation == m.generation ==>
                    m.previous.width == image.width && m.previous.height == image.height)
              && (m'.generation != m.generation ==> r.value.Some?)
  {
    hide Hashes, StoredHashes, Dirty, DamageRects, DirtyTiles, TotalArea, TooDirty, Bands, BandAll, EncodeAll;
  }

  lemma CaptureAligns(h: State, native: (nat, nat), image: Image, force: bool, c: Setup)
    requires SetupOk(c) && MemoryOk(h.memory, c.damage, c.codecs.hash) && Takes(image, c)
    requires Aligned(h, native, c) && SendCapture(h, image, force, c).2 == None
    ensures Aligned(SendCapture(h, image, force, c).0, (image.width, image.height), c)
    ensures 0 < SendCapture(h, image, force, c).0.generation
  {
    hide Compare, PlanFrame, SendAll, Prepare, Takes, MemoryOk, Advertised;
    var prepared := Prepare(image, c);
    ComparedGeometry(h.memory, prepared, force || h.keyframeRequested, c);
    SendCaptureMemory(h, image, force, c);
    PreparedIsAdvertised(image, c);
    var (m', r) := Compare(h.memory, prepared, force || h.keyframeRequested, c.damage, c.codecs);
    var h' := SendCapture(h, image, force, c).0;
    assert h'.memory == m';
    match r.value {
      case None => assert h'.width == h.width && h'.height == h.height && h'.generation == h.generation;
      case Some(f) => assert h'.generation == f.header.generation;
    }
  }

  lemma {:induction false} RunAligned(hs: seq<Happening>, c: Setup)
    requires SetupOk(c) && Possible(hs, c) && After(hs, c).ok
    ensures Aligned(After(hs, c).state, LastNative(hs), c)
    decreases |hs|
  {
    hide SendCapture, HandleInput, Advertised;
    if hs != [] {
      var before := hs[..|hs| - 1];
      RunAligned(before, c);
      match hs[|hs| - 1]
      case Taken(image, force, _) => CaptureAligns(After(before, c).state, LastNative(before), image, force, c);
      case Beat(_) =>
      case Received(m, now) => AcceptedPosition(After(before, c).state, m, now, c);
    }
  }

  /** The last number accepted in the host's generation. */
  ghost predicate LastNumber(p: Past) {
    p.state.lastInputSeq > 0 ==>
      exists k :: 0 <= k < |p.entries|
                  && p.entries[k].generation == p.state.generation && p.entries[k].sequence == p.state.lastInputSeq
  }

  lemma {:induction false} RunLastNumber(hs: seq<Happening>, c: Setup)
    requires SetupOk(c) && Possible(hs, c) && After(hs, c).ok
    ensures LastNumber(After(hs, c))
    decreases |hs|
  {
    hide SendCapture, HandleInput;
    if hs != [] {
      var before := hs[..|hs| - 1];
      var q := After(before, c);
      RunLastNumber(before, c);
      match hs[|hs| - 1]
      case Taken(image, force, _) =>
        RunOrderly(before, c);
        CaptureAndInput(q.state, image, force, c);
      case Beat(_) =>
      case Received(m, now) =>
        AcceptedPosition(q.state, m, now, c);
        AcceptedNumber(q, m, now, c);
    }
  }

  lemma AcceptedNumber(p: Past, m: Message, now: int, c: Setup)
    requires LastNumber(p)
    ensures LastNumber(Handled(p, m, now, c))
  {
    hide HandleInput;
    AcceptedPosition(p.state, m, now, c);
    var p' := Handled(p, m, now, c);
    if WasAccepted(HandleInput(p.state, m, now, c).1) {
      assert p'.entries[|p.entries|].sequence == p'.state.lastInputSeq;
    } else {
      KeepsLastNumber(p, m, now, c);
      assert p'.entries == p.entries;
    }
  }

  lemma KeepsLastNumber(p: Past, m: Message, now: int, c: Setup)
    requires !WasAccepted(HandleInput(p.state, m, now, c).1)
    ensures HandleInput(p.state, m, now, c).0.lastInputSeq == p.state.lastInputSeq
  {
    hide MessageError;
  }

  /** Input over a whole run: after any captures, heartbeats and messages, a valid event is let
      in exactly when input is enabled, it is of the generation announced last and its number is
      beyond every number accepted in that generation. */
  lemma LetInExactly(hs: seq<Happening>, m: Message, g: nat, s: nat, c: Setup)
    requires SetupOk(c) && Possible(hs, c) && After(hs, c).ok && Event(m, g, s)
    ensures var p := After(hs, c);
            LetIn(p.state, m, c)
            <==> && c.enableInput && MessageError(m, c.limits) == None && g == p.state.generation
                 && forall e :: e in p.entries && e.generation == g ==> e.sequence < s
  {
    hide After, MessageError;
    RunOrderly(hs, c);
    RunLastNumber(hs, c);
    if c.enableInput && MessageError(m, c.limits) == None {
      NumbersArePositive(m, g, s, c);
    }
  }

  lemma NumbersArePositive(m: Message, g: nat, s: nat, c: Setup)
    requires MessageError(m, c.limits) == None && Event(m, g, s)
    ensures 0 < g && 0 < s
  {
  }

  /** What an event of a whole run injects: a key with its usage, action and modifiers, a button
      with its action, a wheel with both its axes, lost focus as a release of everything, and a
      move at the position of the capture taken last that is nearest to where it points in the
      display announced for it; on v2 at the very position it names. */
  lemma EventExactly(hs: seq<Happening>, m: Message, now: int, c: Setup)
    requires SetupOk(c) && Possible(hs, c) && After(hs, c).ok && WasAccepted(HandleInput(After(hs, c).state, m, now, c).1)
    ensures var r, native := HandleInput(After(hs, c).state, m, now, c).1, LastNative(hs);
            var shown := Advertised(native, c);
            && Means(m, r, shown.0, shown.1, native.0, native.1)
            && (c.version == VERSION2 && m.PointerMove? && m.x < native.0 && m.y < native.1 ==>
                  r == Accepted(InjectMove(m.x, m.y)))
  {
    hide After, LastNative, HandleInput, Advertised, Means, LetIn;
    var h := After(hs, c).state;
    RunOrderly(hs, c);
    RunAligned(hs, c);
    NativeIsLatest(hs, c);
    AcceptedPosition(h, m, now, c);
    HandledExactly(h, m, now, c);
    var r := HandleInput(h, m, now, c).1;
    assert (h.width, h.height) == Advertised(LastNative(hs), c);
    assert (h.nativeWidth, h.nativeHeight) == LastNative(hs);
    assert Means(m, r, h.width, h.height, h.nativeWidth, h.nativeHeight) by { NotControl(h, m, c); }
    if c.version == VERSION2 && m.PointerMove? {
      SameOnV2(LastNative(hs), c);
      if m.x < h.width && m.y < h.height {
        MoveIsExact(m, r, h.width, h.height);
      }
    }
  }

  lemma NotControl(h: State, m: Message, c: Setup)
    ensures LetIn(h, m, c) ==> !m.KeyframeRequest? && !m.Ping? && !m.Pong?
  {
  }

  lemma SameOnV2(native: (nat, nat), c: Setup)
    requires c.version == VERSION2
    ensures Advertised(native, c) == native
  {
  }

  lemma MoveIsExact(m: Message, r: Reaction, width: nat, height: nat)
    requires m.PointerMove? && Means(m, r, width, height, width, height) && m.x < width && m.y < height
    ensures r == Accepted(InjectMove(m.x, m.y))
  {
    hide Nearest;
    NearestKeepsEnds(m.x, width, width, r.injected.x);
    NearestKeepsEnds(m.y, height, height, r.injected.y);
  }

  /** The limiter drops nothing early: whatever the run and its clock, when an event is dropped
      a full second's worth of events was accepted within the last second. */
  lemma DroppedMeansFull(hs: seq<Happening>, m: Message, start: int, now: int, c: Setup)
    requires SetupOk(c) && Possible(hs, c) && After(hs, c).ok && Clocked(hs, start) && Latest(hs, start) <= now
    requires HandleInput(After(hs, c).state, m, now, c).1 == Dropped
    ensures var es := After(hs, c).entries;
            && c.maxInputPerSecond <= |es|
            && forall k :: |es| - c.maxInputPerSecond <= k < |es| ==> now - 1_000_000_000 < es[k].at <= now
  {
    hide After, Limited;
    RunLimited(hs, start, c);
    var p := After(hs, c);
    DroppedIsFull(p.state, m, now, c);
    forall k | |p.entries| - c.maxInputPerSecond <= k < |p.entries|
      ensures now - 1_000_000_000 < p.entries[k].at <= now
    {
      assert Times(p.entries)[k] == p.entries[k].at;
    }
  }

  lemma DroppedIsFull(h: State, m: Message, now: int, c: Setup)
    requires 0 < c.maxInputPerSecond && HandleInput(h, m, now, c).1 == Dropped
    ensures Full(h, now, c)
  {
    hide MessageError;
  }
}
