/** Splitting a frame and reassembling its parts is the same as applying it whole. */
module Reassembly {
  import opened Types
  import opened Geometry
  import opened Raster
  import opened Messages
  import opened Validation
  import opened Packer
  import opened ClientState
  import opened ClientRuns

  /** A valid frame without the one-message size bound: what a split frame has to be. */
  ghost predicate ValidLogicalFrame(h: Header, rs: seq<Rectangle>, l: Limits) {
    && ValidHeader(h)
    && 0 < |rs| <= Bounded(l).maxRectangles
    && ValidList(rs, Bounded(l))
  }

  ghost predicate GoodSplit(h: Header, rs: seq<Rectangle>, gs: seq<Group>, l: Limits) {
    && ValidLogicalFrame(h, rs, l)
    && Packs(gs, rs, Bounded(l).maxPixelPayload)
    && 2 <= |gs| <= Bounded(l).maxFrameParts
  }

  function PartEvents(parts: seq<FramePart>): (es: seq<Event>)
    ensures |es| == |parts|
  {
    seq(|parts|, k requires 0 <= k < |parts| => ApplyPart(parts[k]))
  }

  // ----- drawing in pieces

  lemma {:induction false} DrawFrameConcat(buf: seq<byte>, a: seq<Rectangle>, b: seq<Rectangle>,
                                           width: nat, height: nat, inflate: seq<byte> -> Option<seq<byte>>)
    requires width > 0 && AllRawSized(a) && AllRawSized(b)
    ensures AllRawSized(a + b)
    ensures var (mid, err) := DrawFrame(buf, a, width, height, inflate);
            DrawFrame(buf, a + b, width, height, inflate)
            == if err.Some? then (mid, err) else DrawFrame(mid, b, width, height, inflate)
    decreases |a|
  {
    if a == [] {
      assert a + b == b;
    } else {
      assert (a + b)[1..] == a[1..] + b;
      if InsideDisplay(a[0].rect, width, height) && Decode(a[0], inflate).Ok? {
        DrawFrameConcat(Blit(buf, Patch(a[0].rect, Decode(a[0], inflate).value), width), a[1..], b,
                        width, height, inflate);
      } else {
        assert forall k :: 0 <= k < |a + b| ==> RawSized((a + b)[k]);
      }
    }
  }

  /** On rectangles disjoint from all earlier ones, a part draws exactly like a frame. */
  lemma {:induction false} DrawPartIsDrawFrame(buf: seq<byte>, placed: seq<Rect>, rs: seq<Rectangle>,
                                               width: nat, height: nat, inflate: seq<byte> -> Option<seq<byte>>)
    requires width > 0 && AllRawSized(rs) && Disjoint(placed + Rects(rs))
    ensures var (a, after, erra) := DrawPart(buf, placed, rs, width, height, inflate);
            var (b, errb) := DrawFrame(buf, rs, width, height, inflate);
            && a == b && erra == errb
            && (erra == None ==> after == placed + Rects(rs))
    decreases |rs|
  {
    if rs == [] {
      assert placed + Rects(rs) == placed;
    } else {
      var all := placed + Rects(rs);
      assert all[|placed|] == rs[0].rect;
      assert forall k :: 0 <= k < |placed| ==> all[k] == placed[k];
      assert !OverlapsAny(rs[0].rect, placed);
      assert all == placed + [rs[0].rect] + Rects(rs[1..]);
      if InsideDisplay(rs[0].rect, width, height) && Decode(rs[0], inflate).Ok? {
        DrawPartIsDrawFrame(Blit(buf, Patch(rs[0].rect, Decode(rs[0], inflate).value), width),
                            placed + [rs[0].rect], rs[1..], width, height, inflate);
      }
    }
  }

  // ----- each part of a good split is an acceptable message

  lemma ConcatCons(gs: seq<Group>, k: nat)
    requires k < |gs|
    ensures Concat(gs[k..]) == gs[k] + Concat(gs[k + 1..])
  {
    assert gs[k..][1..] == gs[k + 1..];
  }

  lemma ConcatSplitsAt(gs: seq<Group>, k: nat)
    requires k < |gs|
    ensures Concat(gs) == Concat(gs[..k]) + gs[k] + Concat(gs[k + 1..])
    ensures Concat(gs[k..]) == gs[k] + Concat(gs[k + 1..])
    ensures Concat(gs[..k + 1]) == Concat(gs[..k]) + gs[k]
  {
    hide Concat;
    ConcatAppend(gs[..k], gs[k..]);
    ConcatCons(gs, k);
    ConcatAppend(gs[..k], [gs[k]]);
    ConcatOne(gs[k]);
    assert gs == gs[..k] + gs[k..];
    assert gs[..k + 1] == gs[..k] + [gs[k]];
  }

  lemma ValidSlice(a: seq<Rectangle>, b: seq<Rectangle>, c: seq<Rectangle>, limits: Limits)
    requires ValidList(a + b + c, limits)
    ensures ValidList(b, limits) && AllRawSized(b)
    ensures Disjoint(Rects(a) + Rects(b))
  {
    var all := a + b + c;
    var joined := Rects(a) + Rects(b);
    forall k | 0 <= k < |b|
      ensures b[k] == all[|a| + k] && Rects(b)[k] == Rects(all)[|a| + k] && ValidRectangle(b[k], limits)
    {
      assert all[|a| + k] == b[k];
    }
    forall k | 0 <= k < |joined|
      ensures joined[k] == Rects(all)[k]
    {
      assert all[k] == if k < |a| then a[k] else b[k - |a|];
    }
    hide ValidRectangle, RawSized, Overlaps;
    forall j, k | 0 <= j < k < |joined|
      ensures !Overlaps(joined[j], joined[k])
    {
      assert !Overlaps(Rects(all)[j], Rects(all)[k]);
    }
  }

  lemma PartOfSplitAccepted(h: Header, rs: seq<Rectangle>, gs: seq<Group>, k: nat, l: Limits)
    requires GoodSplit(h, rs, gs, l) && k < |gs|
    ensures PartError(FramePart(h, k, |gs|, gs[k]), l) == None
    ensures ValidList(gs[k], Bounded(l)) && AllRawSized(gs[k])
    ensures Disjoint(Rects(Concat(gs[..k])) + Rects(gs[k]))
    ensures |Concat(gs[..k])| + |gs[k]| <= |rs|
  {
    hide Concat, ListSize, ListError, PartError, ValidList, Disjoint;
    ConcatSplitsAt(gs, k);
    ValidSlice(Concat(gs[..k]), gs[k], Concat(gs[k + 1..]), Bounded(l));
    PartAccepted(FramePart(h, k, |gs|, gs[k]), l);
    assert FitsPart(gs[k], Bounded(l).maxPixelPayload);
  }

  // ----- the reassembler after the first k parts

  ghost predicate StagedUpTo(s: State, h: Header, gs: seq<Group>, k: nat)
    requires k <= |gs|
  {
    s.generation > 0 && s.mode == Staging(Tail(h, |gs|, k, Rects(Concat(gs[..k]))))
  }

  lemma RectsConcat(a: seq<Rectangle>, b: seq<Rectangle>)
    ensures Rects(a + b) == Rects(a) + Rects(b)
  {
  }

  lemma StepOnPart(s: State, h: Header, rs: seq<Rectangle>, gs: seq<Group>, k: nat, setup: Setup)
    requires Inv(s, setup) && GoodSplit(h, rs, gs, setup.limits) && k < |gs|
    requires StagedUpTo(s, h, gs, k) && h.generation == s.generation
    ensures AllRawSized(gs[k])
    ensures var (drawn, err) := DrawFrame(s.scratch, gs[k], s.width, s.height, setup.inflate);
            var (s', out) := PlacePart(s, FramePart(h, k, |gs|, gs[k]), setup);
            && (err.Some? ==> out == Rejected(err.value) && s'.generation == s.generation
                              && s'.mode.Staging? && s'.mode.tail.next == k)
            && (err == None && k + 1 < |gs| ==>
                  out == Consumed && StagedUpTo(s', h, gs, k + 1)
                  && s' == s.(scratch := drawn, mode := s'.mode))
            && (err == None && k + 1 == |gs| ==>
                  if h.keyframe && TotalArea(Rects(rs)) != s.width * s.height then out == Rejected(IncompleteKeyframe)
                  else out == Committed && s' == CommitFrame(s, h, drawn))
  {
    hide Concat, PartError, DrawPart, DrawFrame, Disjoint, TotalArea, ValidList, Packs;
    PartOfSplitAccepted(h, rs, gs, k, setup.limits);
    var placed := Rects(Concat(gs[..k]));
    DrawPartIsDrawFrame(s.scratch, placed, gs[k], s.width, s.height, setup.inflate);
    ConcatSplitsAt(gs, k);
    RectsConcat(Concat(gs[..k]), gs[k]);
    if k + 1 == |gs| {
      WholeConcat(h, rs, gs, setup.limits);
      assert gs[..k + 1] == gs;
    }
  }

  lemma WholeConcat(h: Header, rs: seq<Rectangle>, gs: seq<Group>, l: Limits)
    requires GoodSplit(h, rs, gs, l)
    ensures Concat(gs) == rs && gs[0..] == gs && gs[..0] == []
    ensures AllRawSized(rs) && Disjoint(Rects(rs))
  {
    ValidSlice([], rs, [], Bounded(l));
    assert [] + rs + [] == rs;
  }

  lemma StepIsPlacePart(s: State, h: Header, rs: seq<Rectangle>, gs: seq<Group>, k: nat, setup: Setup)
    requires Inv(s, setup) && GoodSplit(h, rs, gs, setup.limits) && 0 < k < |gs|
    requires StagedUpTo(s, h, gs, k) && h.generation == s.generation
    ensures AllRawSized(gs[k])
    ensures Step(s, ApplyPart(FramePart(h, k, |gs|, gs[k])), setup)
            == PlacePart(s, FramePart(h, k, |gs|, gs[k]), setup)
  {
    hide Concat, PartError, PlacePart, Disjoint, ValidList, Packs;
    PartOfSplitAccepted(h, rs, gs, k, setup.limits);
  }

  // ----- parts that arrive after the sequence broke

  lemma {:induction false} OutOfOrderNeverCommits(s: State, parts: seq<FramePart>, setup: Setup)
    requires Inv(s, setup)
    requires s.mode.Idle? || (s.mode.Staging?
             && forall j :: 0 <= j < |parts| ==> parts[j].partIndex != s.mode.tail.next)
    requires forall j :: 0 <= j < |parts| ==> 0 < parts[j].partIndex
    ensures Committed !in Run(s, PartEvents(parts), setup).1
    decreases |parts|
  {
    hide DrawPart, PartError, Inv;
    if parts != [] {
      var es := PartEvents(parts);
      assert es[0] == ApplyPart(parts[0]) && es[1..] == PartEvents(parts[1..]);
      StepKeepsInvariant(s, es[0], setup);
      InvIsSized(s, setup);
      assert Step(s, es[0], setup).0 == s;
      OutOfOrderNeverCommits(s, parts[1..], setup);
    }
  }

  lemma PartEventsFrom(h: Header, gs: seq<Group>, k: nat)
    requires k < |gs|
    ensures var parts := Stamp(h, gs);
            && PartEvents(parts[k..])[0] == ApplyPart(FramePart(h, k, |gs|, gs[k]))
            && PartEvents(parts[k..])[1..] == PartEvents(parts[k + 1..])
  {
  }

  ghost predicate ConsumedThenCommitted(outs: seq<Outcome>) {
    && outs != []
    && outs[|outs| - 1] == Committed
    && forall j :: 0 <= j < |outs| - 1 ==> outs[j] == Consumed
  }

  /** From part k on, the rest of a split frame commits just when drawing all that is
      left succeeds, and then leaves what drawing it in one go leaves. */
  lemma {:induction false} RestOfSplit(s: State, h: Header, rs: seq<Rectangle>, gs: seq<Group>, k: nat, setup: Setup)
    requires Inv(s, setup) && GoodSplit(h, rs, gs, setup.limits) && 0 < k < |gs|
    requires StagedUpTo(s, h, gs, k) && h.generation == s.generation
    requires AllRawSized(Concat(gs[k..]))
    ensures var (drawn, err) := DrawFrame(s.scratch, Concat(gs[k..]), s.width, s.height, setup.inflate);
            var (s', outs) := Run(s, PartEvents(Stamp(h, gs)[k..]), setup);
            if err == None && (h.keyframe ==> TotalArea(Rects(rs)) == s.width * s.height)
            then s' == CommitFrame(s, h, drawn) && ConsumedThenCommitted(outs)
            else Committed !in outs
    decreases |gs| - k
  {
    hide Step, PlacePart, DrawFrame, TotalArea, Packs, ValidList, Concat, Inv;
    var part := FramePart(h, k, |gs|, gs[k]);
    var parts := Stamp(h, gs);
    InvIsSized(s, setup);
    PartEventsFrom(h, gs, k);
    StepIsPlacePart(s, h, rs, gs, k, setup);
    StepOnPart(s, h, rs, gs, k, setup);
    StepKeepsInvariant(s, ApplyPart(part), setup);
    ConcatSplitsAt(gs, k);
    RawSizedPieces(gs[k], Concat(gs[k + 1..]));
    DrawFrameConcat(s.scratch, gs[k], Concat(gs[k + 1..]), s.width, s.height, setup.inflate);
    var (s1, out) := Step(s, ApplyPart(part), setup);
    var (mid, err) := DrawFrame(s.scratch, gs[k], s.width, s.height, setup.inflate);
    RunFirst(s, PartEvents(parts[k..]), setup);
    if err.Some? {
      OutOfOrderNeverCommits(s1, parts[k + 1..], setup);
    } else if k + 1 < |gs| {
      RestOfSplit(s1, h, rs, gs, k + 1, setup);
    } else {
      NothingLeft(gs, mid, s.width, s.height, setup.inflate);
    }
  }

  lemma InvIsSized(s: State, setup: Setup)
    requires Inv(s, setup)
    ensures Sized(s) && (s.generation > 0 ==> s.width > 0)
  {
  }

  lemma RawSizedPieces(a: seq<Rectangle>, b: seq<Rectangle>)
    requires AllRawSized(a + b)
    ensures AllRawSized(a) && AllRawSized(b)
  {
    assert forall k :: 0 <= k < |a| ==> a[k] == (a + b)[k];
    assert forall k :: 0 <= k < |b| ==> b[k] == (a + b)[|a| + k];
  }

  lemma NothingLeft(gs: seq<Group>, buf: seq<byte>, width: nat, height: nat, inflate: seq<byte> -> Option<seq<byte>>)
    requires width > 0
    ensures Concat(gs[|gs|..]) == []
    ensures DrawFrame(buf, [], width, height, inflate) == (buf, None)
  {
  }

  lemma RunFirst(s: State, es: seq<Event>, setup: Setup)
    requires Inv(s, setup) && es != []
    ensures Inv(Step(s, es[0], setup).0, setup)
    ensures Run(s, es, setup)
            == (Run(Step(s, es[0], setup).0, es[1..], setup).0,
                [Step(s, es[0], setup).1] + Run(Step(s, es[0], setup).0, es[1..], setup).1)
  {
    StepKeepsInvariant(s, es[0], setup);
  }

  // ----- the theorem

  lemma StepIsFirstPart(s: State, h: Header, rs: seq<Rectangle>, gs: seq<Group>, setup: Setup)
    requires Inv(s, setup) && s.mode.Idle? && GoodSplit(h, rs, gs, setup.limits)
    requires s.generation > 0 && h.generation == s.generation && s.frameSequence < h.sequence
    requires !h.keyframe ==> !s.keyframeRequired && h.base == s.frameSequence
    ensures AllRawSized(gs[0])
    ensures var s0 := s.(scratch := if h.keyframe then Spare(s) else s.pixels, mode := Staging(Tail(h, |gs|, 0, [])));
            Step(s, ApplyPart(FramePart(h, 0, |gs|, gs[0])), setup) == PlacePart(s0, FramePart(h, 0, |gs|, gs[0]), setup)
  {
    hide PlacePart, Packs, ValidList, Concat, PartError, Disjoint, AllInBounds, Solid;
    PartOfSplitAccepted(h, rs, gs, 0, setup.limits);
  }

  /** When part 0 passes the same checks a whole frame has to pass, the sequence runs
      exactly like the single frame. */
  lemma StartedSplit(s: State, h: Header, rs: seq<Rectangle>, gs: seq<Group>, setup: Setup)
    requires Inv(s, setup) && s.mode.Idle? && GoodSplit(h, rs, gs, setup.limits)
    requires s.generation > 0 && h.generation == s.generation && s.frameSequence < h.sequence
    requires !h.keyframe ==> !s.keyframeRequired && h.base == s.frameSequence
    ensures AllRawSized(rs)
    ensures var (w, whole) := ApplyWhole(s, h, rs, setup);
            var (s', outs) := Run(s, PartEvents(Stamp(h, gs)), setup);
            if whole == Committed then s' == w && ConsumedThenCommitted(outs) else Committed !in outs
  {
    hide PlacePart, DrawFrame, TotalArea, Packs, ValidList, Concat, PartError, Disjoint, AllInBounds, Solid, Step;
    var start := if h.keyframe then Spare(s) else s.pixels;
    var s0 := s.(scratch := start, mode := Staging(Tail(h, |gs|, 0, [])));
    var parts := Stamp(h, gs);
    var part := FramePart(h, 0, |gs|, gs[0]);
    WholeConcat(h, rs, gs, setup.limits);
    EmptyConcat();
    NothingPlacedYet(s.width, s.height);
    PartEventsFrom(h, gs, 0);
    assert parts[0..] == parts;
    StepIsFirstPart(s, h, rs, gs, setup);
    PartOfSplitAccepted(h, rs, gs, 0, setup.limits);
    StepOnPart(s0, h, rs, gs, 0, setup);
    ConcatSplitsAt(gs, 0);
    RawSizedPieces(gs[0], Concat(gs[1..]));
    DrawFrameConcat(start, gs[0], Concat(gs[1..]), s.width, s.height, setup.inflate);
    RunFirst(s, PartEvents(parts), setup);
    var (s1, out) := Step(s, ApplyPart(part), setup);
    if DrawFrame(start, gs[0], s.width, s.height, setup.inflate).1.Some? {
      OutOfOrderNeverCommits(s1, parts[1..], setup);
    } else {
      RestOfSplit(s1, h, rs, gs, 1, setup);
    }
  }

  lemma EmptyConcat()
    ensures Concat([]) == [] && Rects([]) == []
  {
  }

  /** Split then reassemble refines the single frame: fed to an idle framebuffer, the
      parts of a valid frame commit exactly when the whole frame would, exactly once and
      on the last part, and leave exactly the state the whole frame leaves. */
  lemma SplitRefinesWhole(s: State, f: Frame, setup: Setup)
    requires Inv(s, setup) && s.mode.Idle?
    requires ValidLogicalFrame(f.header, f.rectangles, setup.limits)
    requires Split(f, setup.limits).Ok?
    ensures AllRawSized(f.rectangles)
    ensures var (w, whole) := ApplyWhole(s, f.header, f.rectangles, setup);
            var (s', outs) := Run(s, PartEvents(Split(f, setup.limits).value), setup);
            if whole == Committed then s' == w && ConsumedThenCommitted(outs) else Committed !in outs
  {
    hide DrawFrame, TotalArea, Packs, ValidList, Concat, Greedy, PartError, StartPart;
    var h, rs := f.header, f.rectangles;
    var gs := Greedy(rs, Bounded(setup.limits).maxPixelPayload);
    SplitIsMinimalPacking(f, setup.limits);
    assert GoodSplit(h, rs, gs, setup.limits);
    WholeConcat(h, rs, gs, setup.limits);
    var parts := Stamp(h, gs);
    if s.generation > 0 && h.generation == s.generation && s.frameSequence < h.sequence
       && (!h.keyframe ==> !s.keyframeRequired && h.base == s.frameSequence) {
      StartedSplit(s, h, rs, gs, setup);
    } else {
      RefusedSplit(s, h, rs, gs, setup);
    }
  }

  lemma RefusedSplit(s: State, h: Header, rs: seq<Rectangle>, gs: seq<Group>, setup: Setup)
    requires Inv(s, setup) && s.mode.Idle? && GoodSplit(h, rs, gs, setup.limits)
    requires !(s.generation > 0 && h.generation == s.generation && s.frameSequence < h.sequence
               && (!h.keyframe ==> !s.keyframeRequired && h.base == s.frameSequence))
    ensures Committed !in Run(s, PartEvents(Stamp(h, gs)), setup).1
  {
    hide Packs, ValidList, Concat, PartError, DrawPart;
    var parts := Stamp(h, gs);
    PartOfSplitAccepted(h, rs, gs, 0, setup.limits);
    PartEventsFrom(h, gs, 0);
    assert parts[0..] == parts;
    RunFirst(s, PartEvents(parts), setup);
    var s1 := Step(s, PartEvents(parts)[0], setup).0;
    if s1.mode.Draining? {
      DrainingNeverCommits(s1, parts[1..], setup);
    } else {
      OutOfOrderNeverCommits(s1, parts[1..], setup);
    }
  }

  lemma {:induction false} DrainingNeverCommits(s: State, parts: seq<FramePart>, setup: Setup)
    requires Inv(s, setup) && !s.mode.Staging?
    requires forall j :: 0 <= j < |parts| ==> 0 < parts[j].partIndex
    ensures Committed !in Run(s, PartEvents(parts), setup).1
    decreases |parts|
  {
    hide DrainPart, PartError, Inv;
    InvIsSized(s, setup);
    if parts != [] {
      var es := PartEvents(parts);
      assert es[0] == ApplyPart(parts[0]) && es[1..] == PartEvents(parts[1..]);
      StepKeepsInvariant(s, es[0], setup);
      DrainingNeverCommits(Step(s, es[0], setup).0, parts[1..], setup);
    }
  }

  // ----- recovery: draining a delta whose base the client does not have

  lemma {:induction false} DrainPartPlaces(placed: seq<Rect>, rs: seq<Rectangle>, width: nat, height: nat)
    requires Disjoint(placed + Rects(rs))
    requires forall k :: 0 <= k < |rs| ==> InsideDisplay(rs[k].rect, width, height)
    ensures DrainPart(placed, rs, width, height) == (placed + Rects(rs), None)
    decreases |rs|
  {
    if rs == [] {
      assert placed + Rects(rs) == placed;
    } else {
      var all := placed + Rects(rs);
      assert all[|placed|] == rs[0].rect;
      assert forall k :: 0 <= k < |placed| ==> all[k] == placed[k];
      assert !OverlapsAny(rs[0].rect, placed);
      assert all == placed + [rs[0].rect] + Rects(rs[1..]);
      DrainPartPlaces(placed + [rs[0].rect], rs[1..], width, height);
    }
  }

  lemma {:induction false} RestOfDrain(s: State, h: Header, rs: seq<Rectangle>, gs: seq<Group>, k: nat, setup: Setup)
    requires Inv(s, setup) && GoodSplit(h, rs, gs, setup.limits) && 0 < k < |gs|
    requires forall j :: 0 <= j < |rs| ==> InsideDisplay(rs[j].rect, s.width, s.height)
    requires s.generation > 0 && h.generation == s.generation
    requires s.mode == Draining(Tail(h, |gs|, k, Rects(Concat(gs[..k]))))
    ensures var (s', outs) := Run(s, PartEvents(Stamp(h, gs)[k..]), setup);
            s' == s.(mode := Idle) && forall j :: 0 <= j < |outs| ==> outs[j] == Consumed
    decreases |gs| - k
  {
    hide GoodSplit, Concat, Step, Inv;
    var parts := Stamp(h, gs);
    PartEventsFrom(h, gs, k);
    NextPartIsDrained(s, h, rs, gs, k, setup);
    RunFirst(s, PartEvents(parts[k..]), setup);
    if k + 1 < |gs| {
      RestOfDrain(Step(s, PartEvents(parts[k..])[0], setup).0, h, rs, gs, k + 1, setup);
    }
  }

  lemma NextPartIsDrained(s: State, h: Header, rs: seq<Rectangle>, gs: seq<Group>, k: nat, setup: Setup)
    requires Inv(s, setup) && GoodSplit(h, rs, gs, setup.limits) && 0 < k < |gs|
    requires forall j :: 0 <= j < |rs| ==> InsideDisplay(rs[j].rect, s.width, s.height)
    requires s.generation > 0 && h.generation == s.generation
    requires s.mode == Draining(Tail(h, |gs|, k, Rects(Concat(gs[..k]))))
    ensures Sized(s)
    ensures var (s', out) := Step(s, ApplyPart(FramePart(h, k, |gs|, gs[k])), setup);
            && out == Consumed && Inv(s', setup)
            && s' == s.(mode := if k + 1 < |gs| then Draining(Tail(h, |gs|, k + 1, Rects(Concat(gs[..k + 1])))) else Idle)
  {
    hide Packs, ValidList, Concat, PartError, DrainPart, Inv, Disjoint;
    InvIsSized(s, setup);
    StepKeepsInvariant(s, ApplyPart(FramePart(h, k, |gs|, gs[k])), setup);
    PartOfSplitAccepted(h, rs, gs, k, setup.limits);
    ConcatSplitsAt(gs, k);
    WholeConcat(h, rs, gs, setup.limits);
    RectsConcat(Concat(gs[..k]), gs[k]);
    GroupInside(rs, gs, k, s.width, s.height);
    DrainPartPlaces(Rects(Concat(gs[..k])), gs[k], s.width, s.height);
  }

  lemma GroupInside(rs: seq<Rectangle>, gs: seq<Group>, k: nat, width: nat, height: nat)
    requires k < |gs| && rs == Concat(gs)
    requires forall j :: 0 <= j < |rs| ==> InsideDisplay(rs[j].rect, width, height)
    ensures forall j :: 0 <= j < |gs[k]| ==> InsideDisplay(gs[k][j].rect, width, height)
  {
    hide Concat, InsideDisplay;
    ConcatSplitsAt(gs, k);
    forall j | 0 <= j < |gs[k]|
      ensures gs[k][j] == rs[|Concat(gs[..k])| + j]
    {
    }
  }

  /** Recovery: a split delta on a base the client does not have asks for a keyframe on
      part 0, swallows the rest of that frame, and leaves the framebuffer as it was. */
  lemma UnknownBaseIsDrained(s: State, f: Frame, setup: Setup)
    requires Inv(s, setup) && s.mode.Idle? && s.generation > 0
    requires ValidLogicalFrame(f.header, f.rectangles, setup.limits)
    requires Split(f, setup.limits).Ok?
    requires f.header.generation == s.generation && !f.header.keyframe
    requires s.keyframeRequired || f.header.base != s.frameSequence
    requires forall j :: 0 <= j < |f.rectangles| ==> InsideDisplay(f.rectangles[j].rect, s.width, s.height)
    ensures var (s', outs) := Run(s, PartEvents(Split(f, setup.limits).value), setup);
            && s' == s
            && |outs| >= 2 && outs[0] == Rejected(KeyframeRequired)
            && forall j :: 1 <= j < |outs| ==> outs[j] == Consumed
  {
    hide Packs, ValidList, Concat, DrainPart, Greedy, Split, Disjoint, Run, Step, Inv;
    var h, rs := f.header, f.rectangles;
    var gs := Greedy(rs, Bounded(setup.limits).maxPixelPayload);
    SplitIsMinimalPacking(f, setup.limits);
    var parts := Stamp(h, gs);
    PartEventsFrom(h, gs, 0);
    assert parts[0..] == parts;
    FirstPartBeginsDrain(s, h, rs, gs, setup);
    RunFirst(s, PartEvents(parts), setup);
    RestOfDrain(Step(s, PartEvents(parts)[0], setup).0, h, rs, gs, 1, setup);
  }

  lemma FirstPartBeginsDrain(s: State, h: Header, rs: seq<Rectangle>, gs: seq<Group>, setup: Setup)
    requires Inv(s, setup) && s.mode.Idle? && s.generation > 0 && GoodSplit(h, rs, gs, setup.limits)
    requires h.generation == s.generation && !h.keyframe && (s.keyframeRequired || h.base != s.frameSequence)
    ensures Sized(s)
    ensures var tail := Tail(h, |gs|, 1, Rects(Concat(gs[..1])));
            Step(s, ApplyPart(FramePart(h, 0, |gs|, gs[0])), setup)
            == (s.(mode := Draining(tail)), Rejected(KeyframeRequired))
  {
    hide Packs, ValidList, Concat, PartError, PlacePart, Disjoint;
    PartOfSplitAccepted(h, rs, gs, 0, setup.limits);
    ConcatSplitsAt(gs, 0);
    EmptyConcat();
    assert gs[..0] == [];
    assert Concat(gs[..1]) == gs[0];
  }
}
