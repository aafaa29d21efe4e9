/** What each event does to the client's framebuffer, told by what an event asks for, what the
    state allows and which pixels the rectangles cover. */
module Transitions {
  import opened Types
  import opened Geometry
  import opened Raster
  import opened Messages
  import opened Validation
  import opened ClientState
  import opened ClientRuns
  import opened Reassembly

  type Inflate = seq<byte> -> Option<seq<byte>>

  // ----- what is wrong with a rectangle

  /** Some pixel of r lies in an earlier rectangle. */
  ghost predicate Collides(r: Rect, placed: seq<Rect>) {
    exists px: nat, py: nat :: Inside(r, px, py) && Covers(placed, px, py)
  }

  /** What is wrong with the place of a rectangle on the display, behind those already placed. */
  ghost function Misplaced(r: Rectangle, placed: seq<Rect>, width: nat, height: nat): Option<Error> {
    if r.rect.x + r.rect.w > width || r.rect.y + r.rect.h > height then Some(OutsideDisplay)
    else if Collides(r.rect, placed) then Some(OverlappingParts)
    else None
  }

  /** What is wrong with the pixels of a rectangle: they inflate to their size, or are raw. */
  function Undecodable(r: Rectangle, inflate: Inflate): Option<Error> {
    if 4 * (r.rect.w * r.rect.h) > 16777216 then Some(MessageTooLarge)
    else if r.encoding == 1 then None
    else if inflate(r.pixels) == None then Some(BadZlib)
    else if |inflate(r.pixels).value| != 4 * (r.rect.w * r.rect.h) then Some(DecodedLength)
    else None
  }

  /** The pixels a rectangle stands for. */
  function Meant(r: Rectangle, inflate: Inflate): seq<byte>
    requires Undecodable(r, inflate) == None
  {
    if r.encoding == 1 then r.pixels else inflate(r.pixels).value
  }

  ghost function Fault(rs: seq<Rectangle>, k: nat, placed: seq<Rect>, width: nat, height: nat, inflate: Inflate)
    : Option<Error>
    requires k < |rs|
  {
    var place := Misplaced(rs[k], placed + Rects(rs[..k]), width, height);
    if place.Some? then place else Undecodable(rs[k], inflate)
  }

  /** The first n rectangles are faultless, and the next, if any, has fault e. */
  ghost predicate Stops(rs: seq<Rectangle>, n: nat, e: Option<Error>, placed: seq<Rect>, width: nat, height: nat,
                        inflate: Inflate)
  {
    && n <= |rs|
    && (forall k :: 0 <= k < n ==> Fault(rs, k, placed, width, height, inflate) == None)
    && (if n < |rs| then e.Some? && Fault(rs, n, placed, width, height, inflate) == e else e == None)
  }

  // ----- what drawing leaves

  /** Byte c of column px of row py. */
  function At(px: nat, py: nat, c: nat, width: nat): nat {
    (py * width + px) * 4 + c
  }

  /** The byte a rectangle puts at channel c of pixel (px, py). */
  ghost predicate Puts(r: Rectangle, px: nat, py: nat, c: nat, v: byte, inflate: Inflate) {
    && Undecodable(r, inflate) == None && Inside(r.rect, px, py)
    && var k := At(px - r.rect.x, py - r.rect.y, c, r.rect.w);
       k < |Meant(r, inflate)| && Meant(r, inflate)[k] == v
  }

  /** Every pixel of the display that one of the rectangles covers holds what that one puts
      there; every other byte is the old one. */
  ghost predicate Shows(now: seq<byte>, old_: seq<byte>, rs: seq<Rectangle>, width: nat, height: nat, inflate: Inflate) {
    && |now| == |old_| == width * height * 4
    && (forall k, px: nat, py: nat, c: nat :: 0 <= k < |rs| && Inside(rs[k].rect, px, py) && c < 4 ==>
          && At(px, py, c, width) < |now| && Puts(rs[k], px, py, c, now[At(px, py, c, width)], inflate))
    && (forall px: nat, py: nat, c: nat :: px < width && py < height && c < 4 && !Covers(Rects(rs), px, py) ==>
          At(px, py, c, width) < |now| && now[At(px, py, c, width)] == old_[At(px, py, c, width)])
  }

  lemma BlitPuts(buf: seq<byte>, r: Rectangle, width: nat, height: nat, inflate: Inflate, px: nat, py: nat, c: nat)
    requires 0 < width && |buf| == width * height * 4 && px < width && py < height && c < 4
    requires Undecodable(r, inflate) == None && |Meant(r, inflate)| == Area(r.rect) * 4
    ensures At(px, py, c, width) < |buf|
    ensures var now := Blit(buf, Patch(r.rect, Meant(r, inflate)), width);
            if Inside(r.rect, px, py) then Puts(r, px, py, c, now[At(px, py, c, width)], inflate)
            else now[At(px, py, c, width)] == buf[At(px, py, c, width)]
  {
    hide Undecodable, Meant;
    ByteAddress(px, py, c, width);
    RowMajorBound(px, py, width, height);
  }

  lemma RectsFirst(rs: seq<Rectangle>)
    requires rs != []
    ensures Rects(rs) == [rs[0].rect] + Rects(rs[1..])
  {
  }

  lemma CoversFirst(r: Rect, rs: seq<Rect>, px: nat, py: nat)
    ensures Covers([r] + rs, px, py) <==> Inside(r, px, py) || Covers(rs, px, py)
  {
    if Covers([r] + rs, px, py) {
      var k :| 0 <= k < |[r] + rs| && Inside(([r] + rs)[k], px, py);
      assert k > 0 ==> Inside(rs[k - 1], px, py);
    }
    if Inside(r, px, py) {
      assert Inside(([r] + rs)[0], px, py);
    }
    if Covers(rs, px, py) {
      var k :| 0 <= k < |rs| && Inside(rs[k], px, py);
      assert Inside(([r] + rs)[k + 1], px, py);
    }
  }

  /** No other rectangle shares a pixel with the first. */
  ghost predicate Apart(rs: seq<Rectangle>) {
    forall k, px: nat, py: nat :: 0 < k < |rs| && Inside(rs[0].rect, px, py) ==> !Inside(rs[k].rect, px, py)
  }

  /** Drawing one more rectangle in front of the others. */
  lemma ShowsFirst(now: seq<byte>, buf: seq<byte>, rs: seq<Rectangle>, width: nat, height: nat, inflate: Inflate)
    requires 0 < width && rs != [] && |buf| == width * height * 4
    requires Undecodable(rs[0], inflate) == None && |Meant(rs[0], inflate)| == Area(rs[0].rect) * 4
    requires rs[0].rect.x + rs[0].rect.w <= width && rs[0].rect.y + rs[0].rect.h <= height
    requires Apart(rs)
    requires Shows(now, Blit(buf, Patch(rs[0].rect, Meant(rs[0], inflate)), width), rs[1..], width, height, inflate)
    ensures Shows(now, buf, rs, width, height, inflate)
  {
    hide Undecodable, Meant, Blit, Inside, Puts, At, Covers;
    var next := Blit(buf, Patch(rs[0].rect, Meant(rs[0], inflate)), width);
    RectsFirst(rs);
    forall k, px: nat, py: nat, c: nat | 0 <= k < |rs| && Inside(rs[k].rect, px, py) && c < 4
      ensures At(px, py, c, width) < |now| && Puts(rs[k], px, py, c, now[At(px, py, c, width)], inflate)
    {
      if k > 0 {
        assert rs[1..][k - 1] == rs[k];
      } else {
        InsideBounds(rs[0].rect, px, py, width, height);
        BlitPuts(buf, rs[0], width, height, inflate, px, py, c);
        OnlyFirst(rs, px, py);
      }
    }
    forall px: nat, py: nat, c: nat | px < width && py < height && c < 4 && !Covers(Rects(rs), px, py)
      ensures At(px, py, c, width) < |now| && now[At(px, py, c, width)] == buf[At(px, py, c, width)]
    {
      CoversFirst(rs[0].rect, Rects(rs[1..]), px, py);
      BlitPuts(buf, rs[0], width, height, inflate, px, py, c);
    }
  }

  lemma InsideBounds(r: Rect, px: nat, py: nat, width: nat, height: nat)
    requires Inside(r, px, py) && r.x + r.w <= width && r.y + r.h <= height
    ensures px < width && py < height
  {
  }

  lemma OnlyFirst(rs: seq<Rectangle>, px: nat, py: nat)
    requires rs != [] && Inside(rs[0].rect, px, py)
    requires forall k :: 0 < k < |rs| ==> !Inside(rs[k].rect, px, py)
    ensures !Covers(Rects(rs[1..]), px, py)
  {
  }

  /** Faults of the rest are faults of the whole. */
  lemma FaultOfRest(rs: seq<Rectangle>, k: nat, placed: seq<Rect>, width: nat, height: nat, inflate: Inflate)
    requires 0 < k < |rs|
    ensures Fault(rs[1..], k - 1, placed + [rs[0].rect], width, height, inflate)
            == Fault(rs, k, placed, width, height, inflate)
  {
    hide Misplaced, Undecodable;
    RectsFirst(rs[..k]);
    assert rs[..k][1..] == rs[1..][..k - 1];
    assert placed + Rects(rs[..k]) == placed + [rs[0].rect] + Rects(rs[1..][..k - 1]);
  }

  lemma CollidesExactly(r: Rect, placed: seq<Rect>)
    requires 0 < r.w && 0 < r.h && forall k :: 0 <= k < |placed| ==> 0 < placed[k].w && 0 < placed[k].h
    ensures Collides(r, placed) <==> OverlapsAny(r, placed)
  {
    hide Inside, Overlaps;
    forall k | 0 <= k < |placed|
      ensures Overlaps(placed[k], r) <==> exists px: nat, py: nat :: Inside(placed[k], px, py) && Inside(r, px, py)
    {
      OverlapIsSharedPixel(placed[k], r);
    }
  }

  /** One rectangle of a part. */
  lemma FirstFault(rs: seq<Rectangle>, placed: seq<Rect>, width: nat, height: nat, inflate: Inflate)
    requires rs != [] && 0 < rs[0].rect.w && 0 < rs[0].rect.h && RawSized(rs[0])
    requires forall k :: 0 <= k < |placed| ==> 0 < placed[k].w && 0 < placed[k].h
    ensures Fault(rs, 0, placed, width, height, inflate)
            == if !InsideDisplay(rs[0].rect, width, height) then Some(OutsideDisplay)
               else if OverlapsAny(rs[0].rect, placed) then Some(OverlappingParts)
               else if Decode(rs[0], inflate).Err? then Some(Decode(rs[0], inflate).error)
               else None
    ensures Undecodable(rs[0], inflate) == None ==>
              Decode(rs[0], inflate) == Ok(Meant(rs[0], inflate)) && |Meant(rs[0], inflate)| == Area(rs[0].rect) * 4
  {
    hide Collides, OverlapsAny;
    assert placed + Rects(rs[..0]) == placed;
    CollidesExactly(rs[0].rect, placed);
  }

  /** What the first n rectangles draw. */
  ghost predicate Draws(r: (seq<byte>, seq<Rect>, Option<Error>), n: nat, buf: seq<byte>, placed: seq<Rect>,
                        rs: seq<Rectangle>, width: nat, height: nat, inflate: Inflate)
  {
    && Stops(rs, n, r.2, placed, width, height, inflate)
    && r.1 == placed + Rects(rs[..n])
    && Shows(r.0, buf, rs[..n], width, height, inflate)
  }

  lemma ShowsNothing(buf: seq<byte>, width: nat, height: nat, inflate: Inflate)
    requires |buf| == width * height * 4
    ensures Shows(buf, buf, [], width, height, inflate)
  {
    forall px: nat, py: nat, c: nat | px < width && py < height && c < 4
      ensures At(px, py, c, width) < |buf|
    {
      RowMajorBound(px, py, width, height);
    }
  }

  /** Drawing one faultless rectangle, then what the rest draws. */
  lemma DrawsFirst(r: (seq<byte>, seq<Rect>, Option<Error>), m: nat, buf: seq<byte>, placed: seq<Rect>,
                   rs: seq<Rectangle>, width: nat, height: nat, inflate: Inflate)
    requires 0 < width && |buf| == width * height * 4 && rs != []
    requires Fault(rs, 0, placed, width, height, inflate) == None && Undecodable(rs[0], inflate) == None
    requires |Meant(rs[0], inflate)| == Area(rs[0].rect) * 4
    requires Draws(r, m, Blit(buf, Patch(rs[0].rect, Meant(rs[0], inflate)), width), placed + [rs[0].rect], rs[1..],
                   width, height, inflate)
    ensures Draws(r, m + 1, buf, placed, rs, width, height, inflate)
  {
    hide Fault, Undecodable, Meant, Blit, Shows, Area, Apart, Stops;
    var n := m + 1;
    StopsFirst(rs, m, r.2, placed, width, height, inflate);
    PrefixOfRest(rs, m, placed);
    LaterElsewhere(rs, n, r.2, placed, width, height, inflate);
    Faultless(rs, 0, placed, width, height, inflate);
    ShowsFirst(r.0, buf, rs[..n], width, height, inflate);
  }

  lemma PrefixOfRest(rs: seq<Rectangle>, m: nat, placed: seq<Rect>)
    requires m < |rs|
    ensures rs[..m + 1] != [] && rs[..m + 1][1..] == rs[1..][..m] && rs[..m + 1][0] == rs[0]
    ensures placed + Rects(rs[..m + 1]) == placed + [rs[0].rect] + Rects(rs[1..][..m])
  {
    RectsFirst(rs[..m + 1]);
    assert rs[..m + 1][1..] == rs[1..][..m];
  }

  lemma DrawsNothing(buf: seq<byte>, placed: seq<Rect>, rs: seq<Rectangle>, e: Option<Error>,
                     width: nat, height: nat, inflate: Inflate)
    requires |buf| == width * height * 4
    requires if rs == [] then e == None else e.Some? && Fault(rs, 0, placed, width, height, inflate) == e
    ensures Draws((buf, placed, e), 0, buf, placed, rs, width, height, inflate)
  {
    hide Fault, Shows;
    ShowsNothing(buf, width, height, inflate);
    assert placed + Rects(rs[..0]) == placed && rs[..0] == [];
  }

  /** Drawing the rectangles of a part: up to the first with a fault, which it reports. */
  lemma {:induction false} DrawExactly(buf: seq<byte>, placed: seq<Rect>, rs: seq<Rectangle>,
                                       width: nat, height: nat, inflate: Inflate) returns (n: nat)
    requires 0 < width && 0 < height && |buf| == width * height * 4 && AllRawSized(rs)
    requires forall k :: 0 <= k < |rs| ==> 0 < rs[k].rect.w && 0 < rs[k].rect.h
    requires forall k :: 0 <= k < |placed| ==> 0 < placed[k].w && 0 < placed[k].h
    ensures Draws(DrawPart(buf, placed, rs, width, height, inflate), n, buf, placed, rs, width, height, inflate)
    decreases |rs|
  {
    hide Fault, Undecodable, Meant, Decode, Blit, OverlapsAny, InsideDisplay, Draws, Area;
    n := 0;
    if rs == [] {
      DrawsNothing(buf, placed, rs, None, width, height, inflate);
    } else {
      FirstFault(rs, placed, width, height, inflate);
      var fault := Fault(rs, 0, placed, width, height, inflate);
      if fault.Some? {
        DrawsNothing(buf, placed, rs, fault, width, height, inflate);
      } else {
        Faultless(rs, 0, placed, width, height, inflate);
        var next := Blit(buf, Patch(rs[0].rect, Meant(rs[0], inflate)), width);
        var m := DrawExactly(next, placed + [rs[0].rect], rs[1..], width, height, inflate);
        var r := DrawPart(next, placed + [rs[0].rect], rs[1..], width, height, inflate);
        DrawsFirst(r, m, buf, placed, rs, width, height, inflate);
        n := m + 1;
      }
    }
  }

  lemma Faultless(rs: seq<Rectangle>, k: nat, placed: seq<Rect>, width: nat, height: nat, inflate: Inflate)
    requires k < |rs| && Fault(rs, k, placed, width, height, inflate) == None
    ensures Undecodable(rs[k], inflate) == None && !Collides(rs[k].rect, placed + Rects(rs[..k]))
    ensures rs[k].rect.x + rs[k].rect.w <= width && rs[k].rect.y + rs[k].rect.h <= height
  {
  }

  lemma StopsFirst(rs: seq<Rectangle>, m: nat, e: Option<Error>, placed: seq<Rect>, width: nat, height: nat,
                   inflate: Inflate)
    requires rs != [] && Fault(rs, 0, placed, width, height, inflate) == None
    requires Stops(rs[1..], m, e, placed + [rs[0].rect], width, height, inflate)
    ensures Stops(rs, m + 1, e, placed, width, height, inflate) && m < |rs|
  {
    hide Fault;
    forall k | 0 < k < |rs|
      ensures Fault(rs, k, placed, width, height, inflate)
              == Fault(rs[1..], k - 1, placed + [rs[0].rect], width, height, inflate)
    {
      FaultOfRest(rs, k, placed, width, height, inflate);
    }
  }

  /** No later faultless rectangle shares a pixel with the first. */
  lemma LaterElsewhere(rs: seq<Rectangle>, n: nat, e: Option<Error>, placed: seq<Rect>, width: nat, height: nat,
                       inflate: Inflate)
    requires 0 < n && Stops(rs, n, e, placed, width, height, inflate)
    ensures Apart(rs[..n])
  {
    hide Fault, Inside;
    forall k, px: nat, py: nat | 0 < k < n && Inside(rs[0].rect, px, py)
      ensures !Inside(rs[k].rect, px, py)
    {
      Faultless(rs, k, placed, width, height, inflate);
      var all := placed + Rects(rs[..k]);
      assert all[|placed|] == rs[0].rect;
      assert Covers(all, px, py);
    }
  }

  lemma {:induction false} DrainExactly(placed: seq<Rect>, rs: seq<Rectangle>, width: nat, height: nat) returns (n: nat)
    requires 0 < width && 0 < height
    requires forall k :: 0 <= k < |rs| ==> 0 < rs[k].rect.w && 0 < rs[k].rect.h
    requires forall k :: 0 <= k < |placed| ==> 0 < placed[k].w && 0 < placed[k].h
    ensures var (after, e) := DrainPart(placed, rs, width, height);
            Crowds(rs, n, e, placed, width, height) && after == placed + Rects(rs[..n])
    decreases |rs|
  {
    hide Misplaced, OverlapsAny, InsideDisplay;
    n := 0;
    assert placed + Rects(rs[..0]) == placed;
    if rs != [] {
      FirstMisplaced(rs[0], placed, width, height);
      if Misplaced(rs[0], placed, width, height) == None {
        var m := DrainExactly(placed + [rs[0].rect], rs[1..], width, height);
        n := m + 1;
        CrowdsFirst(rs, m, DrainPart(placed + [rs[0].rect], rs[1..], width, height).1, placed, width, height);
        PrefixOfRest(rs, m, placed);
      }
    }
  }

  /** The first n rectangles are well placed, and the next, if any, is not. */
  ghost predicate Crowds(rs: seq<Rectangle>, n: nat, e: Option<Error>, placed: seq<Rect>, width: nat, height: nat) {
    && n <= |rs|
    && (forall k :: 0 <= k < n ==> Misplaced(rs[k], placed + Rects(rs[..k]), width, height) == None)
    && (if n < |rs| then e.Some? && Misplaced(rs[n], placed + Rects(rs[..n]), width, height) == e else e == None)
  }

  lemma FirstMisplaced(r: Rectangle, placed: seq<Rect>, width: nat, height: nat)
    requires 0 < r.rect.w && 0 < r.rect.h
    requires forall k :: 0 <= k < |placed| ==> 0 < placed[k].w && 0 < placed[k].h
    ensures Misplaced(r, placed, width, height)
            == if !InsideDisplay(r.rect, width, height) then Some(OutsideDisplay)
               else if OverlapsAny(r.rect, placed) then Some(OverlappingParts)
               else None
  {
    hide Collides, OverlapsAny;
    CollidesExactly(r.rect, placed);
  }

  lemma CrowdsFirst(rs: seq<Rectangle>, m: nat, e: Option<Error>, placed: seq<Rect>, width: nat, height: nat)
    requires rs != [] && Misplaced(rs[0], placed, width, height) == None
    requires Crowds(rs[1..], m, e, placed + [rs[0].rect], width, height)
    ensures Crowds(rs, m + 1, e, placed, width, height)
  {
    hide Misplaced;
    forall k | 0 <= k < |rs|
      ensures placed + Rects(rs[..k])
              == if k == 0 then placed else placed + [rs[0].rect] + Rects(rs[1..][..k - 1])
    {
      if k > 0 {
        PrefixOfRest(rs, k - 1, placed);
      }
    }
  }

  // ----- DISPLAY_CONFIG

  /** A configuration that is valid and of a later generation brings a blank display of its size
      that waits for a keyframe; anything else changes nothing. */
  lemma ConfigureExactly(s: State, c: DisplayConfig, setup: Setup)
    requires Inv(s, setup)
    ensures var (s', out) := Step(s, Configure(c), setup);
            var e := MessageError(Display(c), setup.limits);
            if e.Some? then s' == s && out == Rejected(e.value)
            else if c.generation <= s.generation then s' == s && out == Rejected(StaleGeneration)
            else
              && s'.generation == c.generation && s'.frameSequence == 0
              && s'.width == c.width && s'.height == c.height
              && |s'.pixels| == c.width * c.height * 4 && s'.scratch == s'.pixels
              && (forall i :: 0 <= i < |s'.pixels| ==> s'.pixels[i] == 0)
              && s'.keyframeRequired && s'.mode == Idle
              && out == if s.mode.Idle? then Consumed else Rejected(Interleaved)
  {
    DisplayErrorIsMessageError(c, setup.limits);
    if MessageError(Display(c), setup.limits) == None {
      NeverTooLarge(c, setup.limits);
    }
  }

  lemma NeverTooLarge(c: DisplayConfig, limits: Limits)
    requires DisplayError(c, limits) == None
    ensures c.width * c.height * 4 <= 268435456
  {
    MulMonotone(c.width, 8192, c.height);
    MulMonotone(c.height, 8192, 8192);
  }

  // ----- FRAME

  /** Why a frame is refused before it is drawn. */
  function FrameRefusal(s: State, f: Frame, setup: Setup): Option<Error> {
    if MessageError(WholeFrame(f), setup.limits).Some? then MessageError(WholeFrame(f), setup.limits)
    else if s.mode != Idle then Some(Interleaved)
    else if s.generation == 0 then Some(DisplayNotConfigured)
    else if f.header.generation != s.generation then Some(StaleGeneration)
    else if f.header.keyframe then (if f.header.sequence <= s.frameSequence then Some(StaleSequence) else None)
    else if s.keyframeRequired || f.header.base != s.frameSequence then Some(KeyframeRequired)
    else None
  }

  ghost predicate EveryPixel(rs: seq<Rect>, width: nat, height: nat) {
    forall px: nat, py: nat :: px < width && py < height ==> Covers(rs, px, py)
  }

  /** The committed frame is shown over what was shown before, which becomes the spare buffer. */
  ghost predicate Commits(s: State, s': State, h: Header, rs: seq<Rectangle>, under: seq<byte>, inflate: Inflate) {
    && s' == State(s.generation, h.sequence, s.width, s.height, s'.pixels, s.pixels, false, Idle)
    && Shows(s'.pixels, under, rs, s.width, s.height, inflate)
  }

  /** What becomes of a frame that is drawn: up to its first fault; a delta without one commits,
      and a keyframe without one if it covers every pixel. */
  ghost predicate FrameFate(s: State, s': State, out: Outcome, f: Frame, n: nat, e: Option<Error>, inflate: Inflate) {
    && Stops(f.rectangles, n, e, [], s.width, s.height, inflate)
    && (if e.Some? then out == Rejected(e.value) && s' == s.(scratch := s'.scratch)
        else if f.header.keyframe && !EveryPixel(Rects(f.rectangles), s.width, s.height) then
          out == Rejected(IncompleteKeyframe) && s' == s.(scratch := s'.scratch)
        else out == Committed && Commits(s, s', f.header, f.rectangles, s.pixels, inflate))
  }

  lemma AcceptedRects(rs: seq<Rectangle>, limits: Limits)
    requires ValidList(rs, limits)
    ensures AllRawSized(rs) && forall k :: 0 <= k < |rs| ==> 0 < rs[k].rect.w && 0 < rs[k].rect.h
  {
  }

  lemma PlacedInBounds(rs: seq<Rectangle>, n: nat, placed: seq<Rect>, width: nat, height: nat, inflate: Inflate)
    requires Stops(rs, n, None, placed, width, height, inflate)
    requires forall k :: 0 <= k < |rs| ==> 0 < rs[k].rect.w && 0 < rs[k].rect.h
    ensures n == |rs| && AllInBounds(Rects(rs), width, height)
  {
    hide Fault;
    forall k | 0 <= k < |rs|
      ensures InBounds(rs[k].rect, width, height)
    {
      Faultless(rs, k, placed, width, height, inflate);
    }
  }

  lemma NothingUnder(now: seq<byte>, a: seq<byte>, b: seq<byte>, rs: seq<Rectangle>, width: nat, height: nat,
                     inflate: Inflate)
    requires Shows(now, a, rs, width, height, inflate) && EveryPixel(Rects(rs), width, height) && |a| == |b|
    ensures Shows(now, b, rs, width, height, inflate)
  {
    hide Puts, Covers, At, Inside;
  }

  /** Drawing a frame's disjoint rectangles. */
  lemma DrawFrameExactly(start: seq<byte>, rs: seq<Rectangle>, width: nat, height: nat, inflate: Inflate, limits: Limits)
    returns (n: nat)
    requires 0 < width && 0 < height && |start| == width * height * 4 && ValidList(rs, limits) && AllRawSized(rs)
    ensures var (drawn, e) := DrawFrame(start, rs, width, height, inflate);
            && Stops(rs, n, e, [], width, height, inflate)
            && (e == None ==>
                  && Shows(drawn, start, rs, width, height, inflate)
                  && (TotalArea(Rects(rs)) == width * height <==> EveryPixel(Rects(rs), width, height)))
  {
    hide DrawFrame, DrawPart, TotalArea, EveryPixel, Disjoint, AllInBounds, Stops, Shows, ValidRectangle;
    AcceptedRects(rs, limits);
    n := DrawExactly(start, [], rs, width, height, inflate);
    assert [] + Rects(rs) == Rects(rs);
    DrawPartIsDrawFrame(start, [], rs, width, height, inflate);
    if DrawFrame(start, rs, width, height, inflate).1 == None {
      PlacedInBounds(rs, n, [], width, height, inflate);
      assert rs[..n] == rs;
      CoveredExactly(Rects(rs), width, height);
    }
  }

  /** A single FRAME: refused and without effect, or drawn. */
  lemma FrameExactly(s: State, f: Frame, setup: Setup) returns (n: nat, e: Option<Error>)
    requires Inv(s, setup)
    ensures var (s', out) := Step(s, Apply(f), setup);
            if FrameRefusal(s, f, setup).Some? then
              s' == s && out == Rejected(FrameRefusal(s, f, setup).value)
            else FrameFate(s, s', out, f, n, e, setup.inflate)
  {
    hide FrameError, DrawFrame, TotalArea, EveryPixel, Bounded, ValidList, Stops, Shows;
    n, e := 0, None;
    var rs := f.rectangles;
    FrameAccepted(f, setup.limits);
    if FrameRefusal(s, f, setup) == None {
      var start := if f.header.keyframe then Spare(s) else s.pixels;
      AcceptedRects(rs, Bounded(setup.limits));
      n := DrawFrameExactly(start, rs, s.width, s.height, setup.inflate, Bounded(setup.limits));
      e := DrawFrame(start, rs, s.width, s.height, setup.inflate).1;
      if e == None && EveryPixel(Rects(rs), s.width, s.height) {
        NothingUnder(DrawFrame(start, rs, s.width, s.height, setup.inflate).0, start, s.pixels, rs,
                     s.width, s.height, setup.inflate);
      }
    }
  }

  lemma CoveredExactly(rs: seq<Rect>, width: nat, height: nat)
    requires Disjoint(rs) && AllInBounds(rs, width, height)
    ensures TotalArea(rs) == width * height <==> EveryPixel(rs, width, height)
  {
    hide Covers;
    CoverageByCounting(rs, width, height);
  }

  // ----- FRAME_PART

  /** Why a part is refused before its rectangles are looked at. */
  function PartRefusal(s: State, p: FramePart, setup: Setup): Option<Error> {
    if MessageError(Part(p), setup.limits).Some? then MessageError(Part(p), setup.limits)
    else if s.generation == 0 then Some(DisplayNotConfigured)
    else if p.header.generation != s.generation then Some(StaleGeneration)
    else if s.mode == Idle then
      if p.partIndex > 0 then Some(MissingPartZero)
      else if p.header.keyframe then (if p.header.sequence <= s.frameSequence then Some(StaleSequence) else None)
      else if s.keyframeRequired || p.header.base != s.frameSequence then Some(KeyframeRequired)
      else None
    else if p.partIndex == 0 then Some(RestartAtPartZero)
    else if p.header != s.mode.tail.header || p.partCount != s.mode.tail.partCount then Some(InconsistentHeader)
    else if p.partIndex != s.mode.tail.next then Some(UnexpectedIndex)
    else if |s.mode.tail.rects| + |p.rectangles| > Bounded(setup.limits).maxRectangles then Some(TooManyRectangles)
    else None
  }

  /** A refused part leaves everything as it is, but a restart drops what was staged, and a part
      zero on an unknown base begins the drain of its frame at part one. */
  lemma PartRefused(s: State, p: FramePart, setup: Setup)
    requires Inv(s, setup) && PartRefusal(s, p, setup).Some?
    ensures var (s', out) := Step(s, ApplyPart(p), setup);
            && out == Rejected(PartRefusal(s, p, setup).value)
            && s' == if out.error == RestartAtPartZero && s.mode.Staging? then s.(mode := Idle)
                     else if out.error == KeyframeRequired && s.mode == Idle then
                       s.(mode := Draining(Tail(p.header, p.partCount, 1, Rects(p.rectangles))))
                     else s
  {
    hide DrawPart, DrainPart, TotalArea, Disjoint, AllInBounds, ListError, Bounded;
    AcceptedIsRawSized(p.rectangles, Bounded(setup.limits));
    if PartError(p, setup.limits).Some? {
      PartErrorKinds(p, setup.limits);
    }
  }

  lemma PartErrorKinds(p: FramePart, limits: Limits)
    requires PartError(p, limits).Some?
    ensures PartError(p, limits).value == Malformed || PartError(p, limits).value == MessageTooLarge
  {
    hide Bounded;
    if ListError(p.rectangles, 0, Bounded(limits)).Some? {
      ListErrorKinds(p.rectangles, 0, Bounded(limits));
    }
  }

  lemma {:induction false} ListErrorKinds(rs: seq<Rectangle>, from: nat, limits: Limits)
    requires from <= |rs| && ListError(rs, from, limits).Some?
    ensures ListError(rs, from, limits).value == Malformed || ListError(rs, from, limits).value == MessageTooLarge
    decreases |rs| - from
  {
    if from < |rs| && RectangleError(rs[from], limits) == None && !OverlapsEarlier(rs, from) {
      ListErrorKinds(rs, from + 1, limits);
    }
  }

  /** What was staged of the frame before this part, and on which pixels. */
  function Staged(s: State, p: FramePart): Tail {
    if s.mode == Idle then Tail(p.header, p.partCount, 0, []) else s.mode.tail
  }

  ghost predicate Under(s: State, p: FramePart, start: seq<byte>) {
    && |start| == |s.pixels|
    && (if s.mode.Staging? then start == s.scratch else p.header.keyframe || start == s.pixels)
  }

  /** What becomes of a part that is drawn: up to its first fault, beside the rectangles placed
      before; without one it is placed, and the last one commits the frame, a keyframe if every
      pixel is covered. */
  ghost predicate PartFate(s: State, s': State, out: Outcome, p: FramePart, n: nat, e: Option<Error>,
                           start: seq<byte>, inflate: Inflate)
  {
    var t, rs := Staged(s, p), p.rectangles;
    && Under(s, p, start)
    && Stops(rs, n, e, t.rects, s.width, s.height, inflate)
    && var placed := t.rects + Rects(rs[..n]);
       if e.Some? then
         && out == Rejected(e.value)
         && s' == s.(scratch := s'.scratch, mode := Staging(t.(rects := placed)))
         && Shows(s'.scratch, start, rs[..n], s.width, s.height, inflate)
       else if t.next + 1 < t.partCount then
         && out == Consumed
         && s' == s.(scratch := s'.scratch, mode := Staging(t.(rects := placed, next := t.next + 1)))
         && Shows(s'.scratch, start, rs, s.width, s.height, inflate)
       else if t.header.keyframe && !EveryPixel(placed, s.width, s.height) then
         && out == Rejected(IncompleteKeyframe)
         && s' == s.(scratch := s'.scratch, mode := Staging(t.(rects := placed, next := t.next + 1)))
       else out == Committed && Commits(s, s', t.header, rs, start, inflate)
  }

  lemma PlaceExactly(s: State, p: FramePart, setup: Setup) returns (n: nat, e: Option<Error>)
    requires Inv(s, setup) && s.mode.Staging? && PartError(p, setup.limits) == None
    requires AllRawSized(p.rectangles) && p.partCount == s.mode.tail.partCount && p.partIndex == s.mode.tail.next
    requires |s.mode.tail.rects| + |p.rectangles| <= Bounded(setup.limits).maxRectangles
    ensures var (s', out) := PlacePart(s, p, setup);
            PartFate(s, s', out, p, n, e, s.scratch, setup.inflate)
  {
    hide DrawPart, TotalArea, EveryPixel, Bounded, Disjoint, AllInBounds, Covers, Stops, Shows, PartError;
    var t, rs := s.mode.tail, p.rectangles;
    PartAccepted(p, setup.limits);
    AcceptedRects(rs, Bounded(setup.limits));
    PositiveSizes(t.rects, s.width, s.height);
    n := DrawExactly(s.scratch, t.rects, rs, s.width, s.height, setup.inflate);
    e := DrawPart(s.scratch, t.rects, rs, s.width, s.height, setup.inflate).2;
    if e == None {
      PlacedInBounds(rs, n, t.rects, s.width, s.height, setup.inflate);
      assert rs[..n] == rs;
      DrawPartPlaces(s.scratch, t.rects, rs, s.width, s.height, setup.inflate);
      CoveredExactly(t.rects + Rects(rs), s.width, s.height);
    }
  }

  lemma PositiveSizes(placed: seq<Rect>, width: nat, height: nat)
    requires AllInBounds(placed, width, height)
    ensures forall k :: 0 <= k < |placed| ==> 0 < placed[k].w && 0 < placed[k].h
  {
  }

  /** A part that is the next of its frame is drawn. */
  lemma PartExactly(s: State, p: FramePart, setup: Setup) returns (n: nat, e: Option<Error>, start: seq<byte>)
    requires Inv(s, setup) && PartRefusal(s, p, setup) == None && !s.mode.Draining?
    ensures var (s', out) := Step(s, ApplyPart(p), setup);
            PartFate(s, s', out, p, n, e, start, setup.inflate)
  {
    hide PlacePart, PartFate, Disjoint, AllInBounds, PartError, Bounded;
    AcceptedIsRawSized(p.rectangles, Bounded(setup.limits));
    PartAccepted(p, setup.limits);
    AcceptedRects(p.rectangles, Bounded(setup.limits));
    if s.mode.Staging? {
      start := s.scratch;
      n, e := PlaceExactly(s, p, setup);
    } else {
      start := if p.header.keyframe then Spare(s) else s.pixels;
      NothingPlacedYet(s.width, s.height);
      var s0 := s.(scratch := start, mode := Staging(Tail(p.header, p.partCount, 0, [])));
      n, e := PlaceExactly(s0, p, setup);
      SameFate(s, s0, PlacePart(s0, p, setup).0, PlacePart(s0, p, setup).1, p, n, e, setup.inflate);
    }
  }

  lemma SameFate(s: State, s0: State, s': State, out: Outcome, p: FramePart, n: nat, e: Option<Error>, inflate: Inflate)
    requires s.mode == Idle && |s0.scratch| == |s.pixels| && (p.header.keyframe || s0.scratch == s.pixels)
    requires s0 == s.(scratch := s0.scratch, mode := Staging(Tail(p.header, p.partCount, 0, [])))
    requires PartFate(s0, s', out, p, n, e, s0.scratch, inflate)
    ensures PartFate(s, s', out, p, n, e, s0.scratch, inflate)
  {
    hide Stops, Shows, EveryPixel;
  }

  /** A part drained: checked for its place beside all earlier ones, never drawn; the last one
      ends the drain. */
  lemma DrainedExactly(s: State, p: FramePart, setup: Setup) returns (n: nat, e: Option<Error>)
    requires Inv(s, setup) && PartRefusal(s, p, setup) == None && s.mode.Draining?
    ensures var (s', out) := Step(s, ApplyPart(p), setup);
            var t := s.mode.tail;
            && Crowds(p.rectangles, n, e, t.rects, s.width, s.height)
            && var placed := t.rects + Rects(p.rectangles[..n]);
               if e.Some? then out == Rejected(e.value) && s' == s.(mode := Draining(t.(rects := placed)))
               else
                 && out == Consumed
                 && s' == s.(mode := if p.partIndex == p.partCount - 1 then Idle
                                     else Draining(t.(rects := placed, next := p.partIndex + 1)))
  {
    hide DrainPart, Disjoint, AllInBounds, PartError, Bounded, Crowds, PlacePart, StartPart;
    AcceptedIsRawSized(p.rectangles, Bounded(setup.limits));
    PartAccepted(p, setup.limits);
    AcceptedRects(p.rectangles, Bounded(setup.limits));
    n := DrainExactly(s.mode.tail.rects, p.rectangles, s.width, s.height);
    e := DrainPart(s.mode.tail.rects, p.rectangles, s.width, s.height).1;
    CrowdedLength(p.rectangles, n, e, s.mode.tail.rects, s.width, s.height);
  }

  lemma CrowdedLength(rs: seq<Rectangle>, n: nat, e: Option<Error>, placed: seq<Rect>, width: nat, height: nat)
    requires Crowds(rs, n, e, placed, width, height)
    ensures n <= |rs|
  {
  }

  // ----- a restart

  /** A part zero in the middle of a frame abandons the frame: nothing is staged any more, and
      none of the parts that still follow, whatever they are, commits anything or changes what is
      shown. */
  lemma RestartAbandonsFrame(s: State, p: FramePart, rest: seq<FramePart>, setup: Setup)
    requires Inv(s, setup) && s.mode.Staging?
    requires PartError(p, setup.limits) == None && p.header.generation == s.generation && p.partIndex == 0
    requires forall j :: 0 <= j < |rest| ==> 0 < rest[j].partIndex
    ensures Step(s, ApplyPart(p), setup) == (s.(mode := Idle), Rejected(RestartAtPartZero))
    ensures Run(s, [ApplyPart(p)] + PartEvents(rest), setup).0 == s.(mode := Idle)
    ensures Committed !in Run(s, [ApplyPart(p)] + PartEvents(rest), setup).1
  {
    hide Step, Inv;
    var es := [ApplyPart(p)] + PartEvents(rest);
    InvIsSized(s, setup);
    assert PartRefusal(s, p, setup) == Some(RestartAtPartZero) by { StagingIsConfigured(s, setup); }
    PartRefused(s, p, setup);
    StepKeepsInvariant(s, es[0], setup);
    assert es[0] == ApplyPart(p) && es[1..] == PartEvents(rest);
    OutOfOrderNeverCommits(s.(mode := Idle), rest, setup);
    IdleStaysIdle(s.(mode := Idle), rest, setup);
  }

  lemma StagingIsConfigured(s: State, setup: Setup)
    requires Inv(s, setup) && s.mode.Staging?
    ensures 0 < s.generation
  {
  }

  lemma {:induction false} IdleStaysIdle(s: State, parts: seq<FramePart>, setup: Setup)
    requires Inv(s, setup) && s.mode.Idle?
    requires forall j :: 0 <= j < |parts| ==> 0 < parts[j].partIndex
    ensures Run(s, PartEvents(parts), setup).0 == s
    decreases |parts|
  {
    hide Step, Inv;
    if parts != [] {
      var es := PartEvents(parts);
      assert es[0] == ApplyPart(parts[0]) && es[1..] == PartEvents(parts[1..]);
      InvIsSized(s, setup);
      assert PartRefusal(s, parts[0], setup).Some?;
      PartRefused(s, parts[0], setup);
      assert Step(s, es[0], setup).0 == s by { NotPartZero(s, parts[0], setup); }
      StepKeepsInvariant(s, es[0], setup);
      IdleStaysIdle(s, parts[1..], setup);
    }
  }

  lemma NotPartZero(s: State, p: FramePart, setup: Setup)
    requires s.mode.Idle? && 0 < p.partIndex
    ensures PartRefusal(s, p, setup).Some? && PartRefusal(s, p, setup).value != KeyframeRequired
  {
    hide PartError;
    if PartError(p, setup.limits).Some? {
      PartErrorKinds(p, setup.limits);
    }
  }
}
