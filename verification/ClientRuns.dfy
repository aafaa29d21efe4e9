/** Properties of the client framebuffer over whole runs. */
module ClientRuns {
  import opened Types
  import opened Geometry
  import opened Raster
  import opened Messages
  import opened Validation
  import opened ClientState

  /** The state and the outcomes after a list of events. */
  ghost function Run(s: State, es: seq<Event>, setup: Setup): (r: (State, seq<Outcome>))
    requires Inv(s, setup)
    ensures Inv(r.0, setup) && |r.1| == |es|
    decreases |es|
  {
    if es == [] then (s, [])
    else
      StepKeepsInvariant(s, es[0], setup);
      var (s', out) := Step(s, es[0], setup);
      var (last, outs) := Run(s', es[1..], setup);
      (last, [out] + outs)
  }

  lemma {:induction false} RunConcat(s: State, a: seq<Event>, b: seq<Event>, setup: Setup)
    requires Inv(s, setup)
    ensures Run(s, a + b, setup).0 == Run(Run(s, a, setup).0, b, setup).0
    ensures Run(s, a + b, setup).1 == Run(s, a, setup).1 + Run(Run(s, a, setup).0, b, setup).1
    decreases |a|
  {
    hide Step;
    if a == [] {
      assert a + b == b;
    } else {
      StepKeepsInvariant(s, a[0], setup);
      RunConcat(Step(s, a[0], setup).0, a[1..], b, setup);
      assert (a + b)[1..] == a[1..] + b;
    }
  }

  /** Nothing shown is ever replaced by something older: a run either commits and
      reconfigures nothing, and shows the same pixels, or ends strictly later. */
  lemma {:induction false} RunNeverGoesBack(s: State, es: seq<Event>, setup: Setup)
    requires Inv(s, setup)
    ensures var (s', outs) := Run(s, es, setup);
            && (Later(s, s')
                || (s'.generation == s.generation && s'.frameSequence == s.frameSequence && s'.pixels == s.pixels))
            && (Committed in outs ==> Later(s, s'))
    decreases |es|
  {
    hide Step;
    if es != [] {
      StepKeepsInvariant(s, es[0], setup);
      RunNeverGoesBack(Step(s, es[0], setup).0, es[1..], setup);
    }
  }

  // ----- the scratch buffer is never cleared, yet its leftovers are never shown

  ghost predicate HitsAny(rs: seq<Rect>, i: nat, width: nat)
    requires width > 0
  {
    exists k :: 0 <= k < |rs| && Hits(rs[k], i, width)
  }

  ghost predicate AgreeOn(a: seq<byte>, b: seq<byte>, rs: seq<Rect>, width: nat)
    requires width > 0
  {
    |a| == |b| && forall i :: 0 <= i < |a| && HitsAny(rs, i, width) ==> a[i] == b[i]
  }

  /** Two states that may differ only in leftover scratch bytes no placed rectangle wrote. */
  ghost predicate SameButLeftovers(a: State, b: State) {
    && a.(scratch := []) == b.(scratch := [])
    && |a.scratch| == |b.scratch|
    && (a.mode.Staging? ==>
          && a.width > 0
          && (if a.mode.tail.header.keyframe then AgreeOn(a.scratch, b.scratch, a.mode.tail.rects, a.width)
              else a.scratch == b.scratch))
  }

  lemma BlitAgrees(a: seq<byte>, b: seq<byte>, placed: seq<Rect>, p: Patch, width: nat)
    requires width > 0 && AgreeOn(a, b, placed, width) && |p.bytes| == Area(p.rect) * 4
    ensures AgreeOn(Blit(a, p, width), Blit(b, p, width), placed + [p.rect], width)
  {
    var a', b', placed' := Blit(a, p, width), Blit(b, p, width), placed + [p.rect];
    forall i | 0 <= i < |a'| && HitsAny(placed', i, width)
      ensures a'[i] == b'[i]
    {
      var k :| 0 <= k < |placed'| && Hits(placed'[k], i, width);
      if k < |placed| {
        assert Hits(placed[k], i, width);
      }
    }
  }

  lemma {:induction false} DrawFrameAgrees(a: seq<byte>, b: seq<byte>, placed: seq<Rect>, rs: seq<Rectangle>,
                                           width: nat, height: nat, inflate: seq<byte> -> Option<seq<byte>>)
    requires width > 0 && AllRawSized(rs) && AgreeOn(a, b, placed, width)
    ensures var (a', erra) := DrawFrame(a, rs, width, height, inflate);
            var (b', errb) := DrawFrame(b, rs, width, height, inflate);
            && erra == errb
            && |a'| == |b'|
            && (erra == None ==> AgreeOn(a', b', placed + Rects(rs), width))
            && (erra == None ==> forall k :: 0 <= k < |rs| ==> InsideDisplay(rs[k].rect, width, height))
    decreases |rs|
  {
    hide AgreeOn;
    AgreeSameLength(a, b, placed, width);
    if rs == [] {
      assert placed + Rects(rs) == placed;
    } else if InsideDisplay(rs[0].rect, width, height) && Decode(rs[0], inflate).Ok? {
      var p := Patch(rs[0].rect, Decode(rs[0], inflate).value);
      BlitAgrees(a, b, placed, p, width);
      DrawFrameAgrees(Blit(a, p, width), Blit(b, p, width), placed + [p.rect], rs[1..], width, height, inflate);
      assert placed + Rects(rs) == placed + [p.rect] + Rects(rs[1..]);
      assert forall k :: 0 < k < |rs| ==> rs[k] == rs[1..][k - 1];
    }
  }

  lemma AgreeSameLength(a: seq<byte>, b: seq<byte>, placed: seq<Rect>, width: nat)
    requires width > 0 && AgreeOn(a, b, placed, width)
    ensures |a| == |b|
  {
  }

  lemma {:induction false} DrawPartAgrees(a: seq<byte>, b: seq<byte>, placed: seq<Rect>, rs: seq<Rectangle>,
                                          width: nat, height: nat, inflate: seq<byte> -> Option<seq<byte>>)
    requires width > 0 && AllRawSized(rs) && AgreeOn(a, b, placed, width)
    ensures var (a', pa, erra) := DrawPart(a, placed, rs, width, height, inflate);
            var (b', pb, errb) := DrawPart(b, placed, rs, width, height, inflate);
            && erra == errb && pa == pb && |a'| == |b'|
            && AgreeOn(a', b', pa, width)
    decreases |rs|
  {
    hide AgreeOn;
    AgreeSameLength(a, b, placed, width);
    if rs != [] && InsideDisplay(rs[0].rect, width, height) && !OverlapsAny(rs[0].rect, placed)
       && Decode(rs[0], inflate).Ok? {
      var p := Patch(rs[0].rect, Decode(rs[0], inflate).value);
      BlitAgrees(a, b, placed, p, width);
      DrawPartAgrees(Blit(a, p, width), Blit(b, p, width), placed + [p.rect], rs[1..], width, height, inflate);
    }
  }

  lemma FullCoverageAgrees(a: seq<byte>, b: seq<byte>, rs: seq<Rect>, width: nat, height: nat)
    requires width > 0 && |a| == width * height * 4 && AgreeOn(a, b, rs, width)
    requires Disjoint(rs) && AllInBounds(rs, width, height) && TotalArea(rs) == width * height
    ensures a == b
  {
    CoverageByCounting(rs, width, height);
    forall i | 0 <= i < |a|
      ensures a[i] == b[i]
    {
      RowWithinImage(i, width, height);
      assert Covers(rs, Col(i, width), Row(i, width));
      var k :| 0 <= k < |rs| && Inside(rs[k], Col(i, width), Row(i, width));
      assert Hits(rs[k], i, width);
    }
  }

  lemma ApplyWholeAgrees(a: State, b: State, h: Header, rs: seq<Rectangle>, setup: Setup)
    requires Inv(a, setup) && Inv(b, setup) && SameButLeftovers(a, b) && a.mode.Idle?
    requires AllRawSized(rs) && ValidList(rs, Bounded(setup.limits))
    ensures ApplyWhole(a, h, rs, setup).1 == ApplyWhole(b, h, rs, setup).1
    ensures SameButLeftovers(ApplyWhole(a, h, rs, setup).0, ApplyWhole(b, h, rs, setup).0)
  {
    hide DrawFrame, Disjoint, TotalArea, AgreeOn;
    if a.generation > 0 && h.generation == a.generation && (!h.keyframe ==> !a.keyframeRequired && h.base == a.frameSequence)
       && (h.keyframe ==> a.frameSequence < h.sequence) && h.keyframe {
      NothingAgreed(a.scratch, b.scratch, a.width);
      DrawFrameAgrees(a.scratch, b.scratch, [], rs, a.width, a.height, setup.inflate);
      var (a', err) := DrawFrame(a.scratch, rs, a.width, a.height, setup.inflate);
      var (b', _) := DrawFrame(b.scratch, rs, a.width, a.height, setup.inflate);
      assert [] + Rects(rs) == Rects(rs);
      if err == None && TotalArea(Rects(rs)) == a.width * a.height {
        InDisplay(rs, a.width, a.height, Bounded(setup.limits));
        FullCoverageAgrees(a', b', Rects(rs), a.width, a.height);
      }
    }
  }

  lemma NothingAgreed(a: seq<byte>, b: seq<byte>, width: nat)
    requires width > 0 && |a| == |b|
    ensures AgreeOn(a, b, [], width)
  {
  }

  lemma InDisplay(rs: seq<Rectangle>, width: nat, height: nat, limits: Limits)
    requires ValidList(rs, limits)
    requires forall k :: 0 <= k < |rs| ==> InsideDisplay(rs[k].rect, width, height)
    ensures AllInBounds(Rects(rs), width, height)
  {
    forall k | 0 <= k < |rs|
      ensures InBounds(Rects(rs)[k], width, height)
    {
      assert ValidRectangle(rs[k], limits);
    }
  }

  lemma PlacePartAgrees(a: State, b: State, p: FramePart, setup: Setup)
    requires Inv(a, setup) && Inv(b, setup) && SameButLeftovers(a, b) && a.mode.Staging?
    requires AllRawSized(p.rectangles) && PartError(p, setup.limits) == None
    requires a.generation > 0 && p.partCount == a.mode.tail.partCount
    ensures PlacePart(a, p, setup).1 == PlacePart(b, p, setup).1
    ensures SameButLeftovers(PlacePart(a, p, setup).0, PlacePart(b, p, setup).0)
  {
    hide DrawPart, Disjoint, TotalArea, AgreeOn, PartError, AllInBounds, Bounded;
    var t := a.mode.tail;
    PlacePartKeepsInvariant(a, p, setup);
    if t.header.keyframe {
      DrawPartAgrees(a.scratch, b.scratch, t.rects, p.rectangles, a.width, a.height, setup.inflate);
      var (a', placed, err) := DrawPart(a.scratch, t.rects, p.rectangles, a.width, a.height, setup.inflate);
      var (b', _, _) := DrawPart(b.scratch, t.rects, p.rectangles, a.width, a.height, setup.inflate);
      if TotalArea(placed) == a.width * a.height {
        PartAccepted(p, setup.limits);
        DrawPartPlaces(a.scratch, t.rects, p.rectangles, a.width, a.height, setup.inflate);
        FullCoverageAgrees(a', b', placed, a.width, a.height);
      }
    }
  }

  lemma StepAgrees(a: State, b: State, e: Event, setup: Setup)
    requires Inv(a, setup) && Inv(b, setup) && SameButLeftovers(a, b)
    ensures Step(a, e, setup).1 == Step(b, e, setup).1
    ensures SameButLeftovers(Step(a, e, setup).0, Step(b, e, setup).0)
  {
    hide PlacePart, ApplyWhole, AgreeOn, DrainPart, PartError, FrameError, DisplayError, ListError;
    match e
    case Configure(c) =>
    case Apply(f) =>
      AcceptedIsRawSized(f.rectangles, Bounded(setup.limits));
      FrameAccepted(f, setup.limits);
      if FrameError(f, setup.limits) == None && a.mode.Idle? {
        FrameRawSized(f.rectangles, Bounded(setup.limits));
        ApplyWholeAgrees(a, b, f.header, f.rectangles, setup);
      }
    case ApplyPart(p) =>
      PartStepAgrees(a, b, p, setup);
  }

  lemma FrameRawSized(rs: seq<Rectangle>, limits: Limits)
    requires ValidList(rs, limits)
    ensures AllRawSized(rs)
  {
  }

  lemma PartStepAgrees(a: State, b: State, p: FramePart, setup: Setup)
    requires Inv(a, setup) && Inv(b, setup) && SameButLeftovers(a, b)
    ensures Step(a, ApplyPart(p), setup).1 == Step(b, ApplyPart(p), setup).1
    ensures SameButLeftovers(Step(a, ApplyPart(p), setup).0, Step(b, ApplyPart(p), setup).0)
  {
    hide PlacePart, AgreeOn, DrainPart, PartError, ListError, Disjoint, AllInBounds, Bounded;
    AcceptedIsRawSized(p.rectangles, Bounded(setup.limits));
    PartAccepted(p, setup.limits);
    if PartError(p, setup.limits) == None && a.generation > 0 && p.header.generation == a.generation {
      FrameRawSized(p.rectangles, Bounded(setup.limits));
      if a.mode.Staging? && p.partIndex != 0 && SameFrame(a.mode.tail, p) {
        PlacePartAgrees(a, b, p, setup);
      } else if a.mode.Idle? && p.partIndex == 0
                && (!p.header.keyframe ==> !a.keyframeRequired && p.header.base == a.frameSequence)
                && a.frameSequence < p.header.sequence {
        NothingPlacedYet(a.width, a.height);
        NothingAgreed(a.scratch, b.scratch, a.width);
        var mode := Staging(Tail(p.header, p.partCount, 0, []));
        PlacePartAgrees(a.(scratch := if p.header.keyframe then Spare(a) else a.pixels, mode := mode),
                        b.(scratch := if p.header.keyframe then Spare(b) else b.pixels, mode := mode), p, setup);
      }
    }
  }

  /** The spare buffer is reused uncleared after rejected frames and abandoned part
      sequences; no run can tell what it held. */
  lemma {:induction false} LeftoversAreNeverShown(a: State, b: State, es: seq<Event>, setup: Setup)
    requires Inv(a, setup) && Inv(b, setup) && SameButLeftovers(a, b)
    ensures Run(a, es, setup).1 == Run(b, es, setup).1
    ensures Run(a, es, setup).0.pixels == Run(b, es, setup).0.pixels
    ensures SameButLeftovers(Run(a, es, setup).0, Run(b, es, setup).0)
    decreases |es|
  {
    hide Step;
    if es != [] {
      StepKeepsInvariant(a, es[0], setup);
      StepKeepsInvariant(b, es[0], setup);
      StepAgrees(a, b, es[0], setup);
      LeftoversAreNeverShown(Step(a, es[0], setup).0, Step(b, es[0], setup).0, es[1..], setup);
    }
  }
}
