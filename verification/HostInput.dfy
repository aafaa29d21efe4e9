/** What the host's input handling guarantees over any run of captures and client messages. */
module HostInput {
  import opened Types
  import opened Messages
  import opened Validation
  import opened Tiling
  import opened Geometry
  import opened Damage
  import opened Downscale
  import opened Host
  import Pointer
  import WireBounds

  predicate WasAccepted(r: Reaction) { r.Accepted? || r.AcceptedOutside? }

  /** An accepted event: its header, when it came, what it injected, and the dimensions of
      the native capture at that moment. */
  datatype Entry =
    Entry(generation: nat, sequence: nat, at: int, injected: Option<Injected>, nativeWidth: nat, nativeHeight: nat)

  /** A host's past: its state, the accepted events, how many events reached the rate
      limiter, and whether every capture so far went out without an error. */
  datatype Past = Past(state: State, entries: seq<Entry>, passed: nat, ok: bool)

  function Handled(p: Past, m: Message, now: int, c: Setup): Past {
    var h := p.state;
    var (h', r) := HandleInput(h, m, now, c);
    var injected := if r.Accepted? then Some(r.injected) else None;
    var entries :=
      if WasAccepted(r) && InputHeader(m).Some? then
        p.entries + [Entry(InputHeader(m).value.0, InputHeader(m).value.1, now, injected, h.nativeWidth, h.nativeHeight)]
      else p.entries;
    Past(h', entries, p.passed + if PassesHeader(h, m, c) then 1 else 0, p.ok)
  }

  /** A service from its start through some happenings. A capture's error ends it; a refused
      message, which would end it too, is passed over, so that nothing below depends on it. */
  ghost function After(hs: seq<Happening>, c: Setup): (p: Past)
    requires SetupOk(c) && Possible(hs, c)
    ensures MemoryOk(p.state.memory, c.damage, c.codecs.hash)
    decreases |hs|
  {
    if hs == [] then Past(START, [], 0, true)
    else
      var p := After(hs[..|hs| - 1], c);
      if !p.ok then p
      else match hs[|hs| - 1]
           case Taken(image, force, _) =>
             SendCaptureMemory(p.state, image, force, c);
             var (h', _, err) := SendCapture(p.state, image, force, c);
             p.(state := h', ok := err == None)
           case Beat(_) => p
           case Received(m, now) => Handled(p, m, now, c)
  }

  // ----- the clock

  /** The latest time a message came, or `start`. */
  function Latest(hs: seq<Happening>, start: int): int {
    if hs == [] then start
    else if hs[|hs| - 1].Received? then hs[|hs| - 1].now
    else Latest(hs[..|hs| - 1], start)
  }

  /** A monotonic clock that never runs behind `start`. */
  ghost predicate Clocked(hs: seq<Happening>, start: int) {
    hs == [] ||
    (&& Clocked(hs[..|hs| - 1], start)
     && (hs[|hs| - 1].Received? ==> Latest(hs[..|hs| - 1], start) <= hs[|hs| - 1].now))
  }

  // ----- the rate limit

  function Times(es: seq<Entry>): (ts: seq<int>)
    ensures |ts| == |es| && forall k :: 0 <= k < |es| ==> ts[k] == es[k].at
  {
    seq(|es|, k requires 0 <= k < |es| => es[k].at)
  }

  /** How the accepted times so far sit in the limiter's windows: the counted ones since
      the window opened, at most a full window before that, and all others at least a
      second before it opened. */
  ghost predicate Windowed(ts: seq<int>, h: State, now: int, max: nat) {
    && h.windowCount <= max
    && (h.windowStart == None ==> ts == [] && h.windowCount == 0)
    && (h.windowStart.Some? ==>
          var w, n := h.windowStart.value, h.windowCount;
          && w <= now && n <= |ts|
          && (forall i :: |ts| - n <= i < |ts| ==> w <= ts[i] <= now)
          && (forall i :: 0 <= i < |ts| - n ==> ts[i] <= w)
          && (forall i :: 0 <= i < |ts| - n - max ==> ts[i] <= w - SECOND))
  }

  /** Any two accepted events 2*max places apart are at least a second apart. */
  ghost predicate Limited(ts: seq<int>, max: nat) {
    forall i, j :: 0 <= i && i + 2 * max <= j < |ts| ==> ts[j] - ts[i] >= SECOND
  }

  lemma StepStaysLimited(ts: seq<int>, h: State, m: Message, now: int, before: int, c: Setup)
    requires 0 < c.maxInputPerSecond && before <= now
    requires Windowed(ts, h, before, c.maxInputPerSecond) && Limited(ts, c.maxInputPerSecond)
    ensures var (h', r) := HandleInput(h, m, now, c);
            var ts' := if WasAccepted(r) then ts + [now] else ts;
            Windowed(ts', h', now, c.maxInputPerSecond) && Limited(ts', c.maxInputPerSecond)
  {
    hide HandleInput;
    LimiterMoves(h, m, now, c);
  }

  /** The limiter's own state: an accepted event opens a window or is counted in one that is
      still open and not full; anything else leaves it alone. */
  lemma LimiterMoves(h: State, m: Message, now: int, c: Setup)
    requires 0 < c.maxInputPerSecond
    ensures var (h', r) := HandleInput(h, m, now, c);
            if !WasAccepted(r) then h'.windowStart == h.windowStart && h'.windowCount == h.windowCount
            else if h.windowStart == None || now - h.windowStart.value >= SECOND then
              h'.windowStart == Some(now) && h'.windowCount == 1
            else h'.windowStart == h.windowStart && h'.windowCount == h.windowCount + 1 <= c.maxInputPerSecond
  {
    hide MessageError;
  }

  // ----- what a capture does to the input side

  /** A capture leaves the limiter alone. It keeps the generation, or starts a later one in
      which nothing has been accepted yet; either way the native dimensions are its own, and
      not zero once any generation was announced. */
  lemma CaptureAndInput(h: State, image: Image, force: bool, c: Setup)
    requires SetupOk(c) && MemoryOk(h.memory, c.damage, c.codecs.hash) && Takes(image, c)
    requires h.generation <= h.memory.generation && SendCapture(h, image, force, c).2 == None
    ensures var h' := SendCapture(h, image, force, c).0;
            && h'.windowStart == h.windowStart && h'.windowCount == h.windowCount && h'.drops == h.drops
            && h'.generation <= h'.memory.generation
            && (if h'.generation == h.generation then h'.lastInputSeq == h.lastInputSeq
                else h.generation < h'.generation && h'.lastInputSeq == 0)
            && h'.nativeWidth == image.width > 0 && h'.nativeHeight == image.height > 0
  {
    hide PlanFrame, SendAll, Compare, Prepare, MemoryOk, Takes;
    var prepared := Prepare(image, c);
    PreparedIsNoLarger(image, c);
    SendCaptureMemory(h, image, force, c);
    ComparedGeneration(h.memory, prepared, force || h.keyframeRequested, c);
    var (m', r) := Compare(h.memory, prepared, force || h.keyframeRequested, c.damage, c.codecs);
    var h' := SendCapture(h, image, force, c).0;
    assert h'.memory == m';
    match r.value {
      case None => assert h'.generation == h.generation;
      case Some(f) => assert h'.generation == f.header.generation;
    }
  }

  lemma PreparedIsNoLarger(image: Image, c: Setup)
    requires Takes(image, c)
    ensures Prepare(image, c).width <= image.width && Prepare(image, c).height <= image.height
  {
    hide AllAverages;
  }

  lemma ComparedGeneration(m: Memory, image: Image, force: bool, c: Setup)
    requires SetupOk(c) && MemoryOk(m, c.damage, c.codecs.hash)
    ensures var (m', r) := Compare(m, image, force, c.damage, c.codecs);
            && m.generation <= m'.generation
            && (r.Ok? ==> ValidImage(image))
            && (r.Ok? && r.value.Some? ==> r.value.value.header.generation == m'.generation)
  {
    hide Hashes, StoredHashes, Dirty, DamageRects, DirtyTiles, TotalArea, TooDirty, Bands, BandAll, EncodeAll;
  }

  // ----- every run

  /** Accepted events in strictly increasing order of generation and sequence, none past the
      host's position, and every injected move inside its native capture. */
  ghost predicate Orderly(p: Past) {
    && p.state.generation <= p.state.memory.generation
    && (p.state.generation > 0 ==> p.state.nativeWidth > 0 && p.state.nativeHeight > 0)
    && (forall k :: 0 <= k < |p.entries| ==> Settled(p.entries[k], p.state))
    && (forall i, j :: 0 <= i < j < |p.entries| ==> Precedes(p.entries[i], p.entries[j]))
    && |p.entries| + p.state.drops == p.passed
  }

  predicate Precedes(a: Entry, b: Entry) {
    a.generation < b.generation || (a.generation == b.generation && a.sequence < b.sequence)
  }

  predicate Settled(e: Entry, h: State) {
    && 0 < e.generation <= h.generation
    && (e.generation == h.generation ==> e.sequence <= h.lastInputSeq)
    && Inside(e)
  }

  /** A move lands in the native capture of its moment. */
  predicate Inside(e: Entry) {
    e.injected.Some? && e.injected.value.InjectMove? ==>
      e.injected.value.x < e.nativeWidth && e.injected.value.y < e.nativeHeight
  }

  lemma AcceptedPosition(h: State, m: Message, now: int, c: Setup)
    ensures var (h', r) := HandleInput(h, m, now, c);
            && h' == h.(keyframeRequested := h'.keyframeRequested, windowStart := h'.windowStart,
                        windowCount := h'.windowCount, drops := h'.drops, lastInputSeq := h'.lastInputSeq)
            && h.lastInputSeq <= h'.lastInputSeq && h.drops <= h'.drops
            && (WasAccepted(r) ==>
                  InputHeader(m) == Some((h.generation, h'.lastInputSeq)) && h.lastInputSeq < h'.lastInputSeq
                  && 0 < h.generation)
            && (if PassesHeader(h, m, c) then WasAccepted(r) || h'.drops == h.drops + 1 else !WasAccepted(r))
            && (WasAccepted(r) || !PassesHeader(h, m, c) ==> h'.drops == h.drops)
  {
    hide MessageError;
    AcceptedGeneration(m, c.limits);
  }

  lemma AcceptedGeneration(m: Message, limits: Limits)
    ensures InputHeader(m).Some? && MessageError(m, limits) == None ==> 0 < InputHeader(m).value.0
  {
    hide Bounded;
  }

  lemma InjectedInside(h: State, m: Message, now: int, c: Setup)
    requires 0 < h.nativeWidth && 0 < h.nativeHeight
    ensures var r := HandleInput(h, m, now, c).1;
            r.Accepted? && r.injected.InjectMove? ==>
              r.injected.x < h.nativeWidth && r.injected.y < h.nativeHeight
  {
    hide MessageError;
    match m
    case PointerMove(_, _, x, y) =>
      if x < h.width && y < h.height {
        RemapInside(x, h.width, h.nativeWidth);
        RemapInside(y, h.height, h.nativeHeight);
      }
    case _ =>
  }

  lemma RemapInside(v: nat, advertised: nat, native: nat)
    requires v < advertised && 0 < native
    ensures Pointer.Remap(v, advertised, native) < native
  {
    if advertised > 1 {
      Pointer.RemapIsNearest(v, advertised, native);
    }
  }

  lemma HandledOrderly(p: Past, m: Message, now: int, c: Setup)
    requires Orderly(p)
    ensures Orderly(Handled(p, m, now, c))
  {
    hide HandleInput, PassesHeader, Inside;
    AcceptedPosition(p.state, m, now, c);
    var (h', r) := HandleInput(p.state, m, now, c);
    if WasAccepted(r) {
      InjectedInside(p.state, m, now, c);
      var e := Handled(p, m, now, c).entries[|p.entries|];
      assert Inside(e) by { InsideMeans(e); }
    }
  }

  lemma InsideMeans(e: Entry)
    ensures Inside(e) <==> (e.injected.Some? && e.injected.value.InjectMove? ==>
                              e.injected.value.x < e.nativeWidth && e.injected.value.y < e.nativeHeight)
  {
  }

  lemma CapturedOrderly(p: Past, image: Image, force: bool, c: Setup)
    requires SetupOk(c) && MemoryOk(p.state.memory, c.damage, c.codecs.hash) && Takes(image, c) && Orderly(p)
    requires SendCapture(p.state, image, force, c).2 == None
    ensures Orderly(p.(state := SendCapture(p.state, image, force, c).0))
  {
    hide SendCapture, Inside, MemoryOk;
    CaptureAndInput(p.state, image, force, c);
  }

  lemma {:induction false} RunOrderly(hs: seq<Happening>, c: Setup)
    requires SetupOk(c) && Possible(hs, c) && After(hs, c).ok
    ensures Orderly(After(hs, c))
    decreases |hs|
  {
    hide Orderly, Handled, SendCapture;
    if hs == [] {
      assert Orderly(Past(START, [], 0, true)) by { StartOrderly(); }
    } else {
      var before := hs[..|hs| - 1];
      RunOrderly(before, c);
      match hs[|hs| - 1]
      case Taken(image, force, _) => CapturedOrderly(After(before, c), image, force, c);
      case Beat(_) =>
      case Received(m, now) => HandledOrderly(After(before, c), m, now, c);
    }
  }

  lemma StartOrderly()
    ensures Orderly(Past(START, [], 0, true))
  {
  }

  lemma {:induction false} RunLimited(hs: seq<Happening>, start: int, c: Setup)
    requires SetupOk(c) && Possible(hs, c) && After(hs, c).ok && Clocked(hs, start)
    ensures var p := After(hs, c);
            && Windowed(Times(p.entries), p.state, Latest(hs, start), c.maxInputPerSecond)
            && Limited(Times(p.entries), c.maxInputPerSecond)
    decreases |hs|
  {
    hide SendCapture, HandleInput, Limited;
    var p := After(hs, c);
    if hs == [] {
      assert Times(p.entries) == [];
      assert Limited([], c.maxInputPerSecond) by { NothingToLimit(c.maxInputPerSecond); }
    } else {
      var before := hs[..|hs| - 1];
      var q := After(before, c);
      RunLimited(before, start, c);
      match hs[|hs| - 1]
      case Taken(image, force, _) =>
        RunOrderly(before, c);
        CaptureAndInput(q.state, image, force, c);
      case Beat(_) =>
      case Received(m, now) =>
        StepStaysLimited(Times(q.entries), q.state, m, now, Latest(before, start), c);
        AcceptedPosition(q.state, m, now, c);
        var ts := if WasAccepted(HandleInput(q.state, m, now, c).1) then Times(q.entries) + [now] else Times(q.entries);
        assert Times(p.entries) == ts;
    }
  }

  lemma NothingToLimit(max: nat)
    ensures Limited([], max)
  {
  }

  // ----- the results

  /** Input rate: over any run of captures and messages, arriving whenever they do, among any
      2*max+1 consecutive accepted events the first and the last are at least a second apart,
      so no interval shorter than a second holds more than 2*max of them. */
  lemma AtMostTwiceTheLimit(hs: seq<Happening>, start: int, c: Setup, i: nat, j: nat)
    requires SetupOk(c) && Possible(hs, c) && After(hs, c).ok && Clocked(hs, start)
    requires i + 2 * c.maxInputPerSecond <= j < |After(hs, c).entries|
    ensures After(hs, c).entries[j].at - After(hs, c).entries[i].at >= SECOND
  {
    hide After, Windowed;
    RunLimited(hs, start, c);
    assert Times(After(hs, c).entries)[j] - Times(After(hs, c).entries)[i] >= SECOND;
  }

  /** Every event of the run that passed the header check was accepted or counted as
      dropped, and none was both. */
  lemma NothingUncounted(hs: seq<Happening>, c: Setup)
    requires SetupOk(c) && Possible(hs, c) && After(hs, c).ok
    ensures |After(hs, c).entries| + After(hs, c).state.drops == After(hs, c).passed
  {
    hide After;
    RunOrderly(hs, c);
  }

  /** Over the whole run accepted events come in strictly increasing order: generations never
      go back, and within one the input sequence grows. */
  lemma AcceptedMovesForward(hs: seq<Happening>, c: Setup, i: nat, j: nat)
    requires SetupOk(c) && Possible(hs, c) && After(hs, c).ok
    requires i < j < |After(hs, c).entries|
    ensures Precedes(After(hs, c).entries[i], After(hs, c).entries[j])
  {
    hide After, Precedes;
    RunOrderly(hs, c);
  }

  /** The dimensions of the last capture taken. */
  function LastNative(hs: seq<Happening>): (nat, nat) {
    if hs == [] then (0, 0)
    else match hs[|hs| - 1]
         case Taken(image, _, _) => (image.width, image.height)
         case _ => LastNative(hs[..|hs| - 1])
  }

  lemma {:induction false} NativeIsLatest(hs: seq<Happening>, c: Setup)
    requires SetupOk(c) && Possible(hs, c) && After(hs, c).ok
    ensures (After(hs, c).state.nativeWidth, After(hs, c).state.nativeHeight) == LastNative(hs)
    decreases |hs|
  {
    hide SendCapture, HandleInput;
    if hs != [] {
      var before := hs[..|hs| - 1];
      NativeIsLatest(before, c);
      match hs[|hs| - 1]
      case Taken(image, force, _) =>
        RunOrderly(before, c);
        CaptureAndInput(After(before, c).state, image, force, c);
      case Beat(_) =>
      case Received(m, now) => AcceptedPosition(After(before, c).state, m, now, c);
    }
  }

  /** Every injected move lies inside the native capture that was the latest when the event
      came, for an event that is the last thing of any run. */
  lemma MovesStayInside(hs: seq<Happening>, m: Message, now: int, c: Setup)
    requires SetupOk(c) && Possible(hs, c) && After(hs, c).ok
    ensures var r := HandleInput(After(hs, c).state, m, now, c).1;
            r.Accepted? && r.injected.InjectMove? ==>
              r.injected.x < LastNative(hs).0 && r.injected.y < LastNative(hs).1
  {
    hide After, LastNative, HandleInput;
    RunOrderly(hs, c);
    NativeIsLatest(hs, c);
    AcceptedPosition(After(hs, c).state, m, now, c);
    if WasAccepted(HandleInput(After(hs, c).state, m, now, c).1) {
      InjectedInside(After(hs, c).state, m, now, c);
    }
  }

  /** Such runs exist: under the shipped limits, once any legal image was captured, a first
      pointer event is accepted and injected. */
  lemma InputGetsThrough(image: Image, now: int, c: Setup)
    requires WireBounds.Default(c) && WireBounds.NeverEmpty(c.codecs) && ValidImage(image) && c.enableInput
    ensures var hs := [Taken(image, false, []), Received(PointerMove(1, 1, 0, 0), now)];
            && Possible(hs, c) && After(hs, c).ok
            && |After(hs, c).entries| == 1 && After(hs, c).entries[0].injected.Some?
  {
    hide SendCapture, Takes;
    var hs := [Taken(image, false, []), Received(PointerMove(1, 1, 0, 0), now)];
    assert hs[..1] == [hs[0]] && [hs[0]][..0] == [];
    WellSizedIsTaken(image, c);
    WireBounds.HostNeverRefuses(START, image, false, c);
    FirstCapture(image, c);
    assert After([], c) == Past(START, [], 0, true);
    assert After([hs[0]], c).state == SendCapture(START, image, false, c).0;
  }

  /** The first capture announces generation 1 with the dimensions it sends. */
  lemma FirstCapture(image: Image, c: Setup)
    requires WireBounds.Default(c) && ValidImage(image) && Takes(image, c)
    requires SendCapture(START, image, false, c).2 == None
    ensures var h := SendCapture(START, image, false, c).0;
            && h.generation == 1 && h.lastInputSeq == 0 && h.windowCount == 0 && h.windowStart == None
            && 0 < h.width && 0 < h.height
  {
    hide PlanFrame, SendAll, Hashes, StoredHashes, Bands, EncodeAll, AllAverages;
    WireBounds.PreparedIsValid(image, c);
  }
}
