/** Splitting a frame's whole rectangles into ordered FRAME_PARTs under a byte budget. */
module Packer {
  import opened Types
  import opened Messages

  type Group = seq<Rectangle>

  // ----- what a legal packing is

  ghost predicate FitsPart(g: Group, budget: nat) {
    g != [] && FRAME_PART_HEADER_SIZE + ListSize(g) <= budget
  }

  function Concat(gs: seq<Group>): Group {
    if gs == [] then [] else gs[0] + Concat(gs[1..])
  }

  /** An order-preserving partition whose every group fits one part. */
  ghost predicate Packs(gs: seq<Group>, rs: seq<Rectangle>, budget: nat) {
    Concat(gs) == rs && forall k :: 0 <= k < |gs| ==> FitsPart(gs[k], budget)
  }

  // ----- the greedy packing, as a function of what is still unpacked

  /** How many leading rectangles fit behind `used` bytes of payload. */
  function Reach(rs: seq<Rectangle>, used: nat, budget: nat): (n: nat)
    ensures n <= |rs|
  {
    if rs == [] || used + RectSize(rs[0]) > budget then 0
    else 1 + Reach(rs[1..], used + RectSize(rs[0]), budget)
  }

  /** The greedy groups, stopping early at a rectangle no part can hold. */
  function Greedy(rs: seq<Rectangle>, budget: nat): seq<Group>
    decreases |rs|
  {
    var n := Reach(rs, FRAME_PART_HEADER_SIZE, budget);
    if n == 0 then [] else [rs[..n]] + Greedy(rs[n..], budget)
  }

  lemma GreedyOfNothing(budget: nat)
    ensures Packable([], budget) && Greedy([], budget) == []
  {
  }

  predicate Packable(rs: seq<Rectangle>, budget: nat) {
    Concat(Greedy(rs, budget)) == rs
  }

  lemma {:induction false} ListSizeCons(rs: seq<Rectangle>)
    requires rs != []
    ensures ListSize(rs) == RectSize(rs[0]) + ListSize(rs[1..])
  {
    ListSizeConcat([rs[0]], rs[1..]);
    assert rs == [rs[0]] + rs[1..];
    assert ListSize([rs[0]]) == ListSize([rs[0]][..0]) + RectSize(rs[0]);
  }

  /** Reach is the longest fitting prefix. */
  lemma {:induction false} ReachIsLongest(rs: seq<Rectangle>, used: nat, budget: nat, n: nat)
    requires n <= |rs| && used <= budget
    ensures n <= Reach(rs, used, budget) <==> used + ListSize(rs[..n]) <= budget
  {
    if n > 0 {
      assert rs[..n][1..] == rs[1..][..n - 1];
      ListSizeCons(rs[..n]);
      if used + RectSize(rs[0]) <= budget {
        ReachIsLongest(rs[1..], used + RectSize(rs[0]), budget, n - 1);
      }
    }
  }

  /** One greedy step at position j of rs. */
  lemma GreedyStep(rs: seq<Rectangle>, j: nat, budget: nat) returns (n: nat)
    requires j <= |rs|
    ensures n == Reach(rs[j..], FRAME_PART_HEADER_SIZE, budget) && j + n <= |rs|
    ensures n == 0 ==> Greedy(rs[j..], budget) == []
    ensures n > 0 ==> Greedy(rs[j..], budget) == [rs[j..j + n]] + Greedy(rs[j + n..], budget)
    ensures n > 0 ==> Concat(Greedy(rs[j..], budget)) == rs[j..j + n] + Concat(Greedy(rs[j + n..], budget))
    ensures n > 0 ==> (Packable(rs[j..], budget) <==> Packable(rs[j + n..], budget))
    ensures n > 0 ==> FitsPart(rs[j..j + n], budget)
  {
    var rest := rs[j..];
    n := Reach(rest, FRAME_PART_HEADER_SIZE, budget);
    if n > 0 {
      assert rest[..n] == rs[j..j + n] && rest[n..] == rs[j + n..];
      assert FRAME_PART_HEADER_SIZE + RectSize(rest[0]) <= budget;
      ReachIsLongest(rest, FRAME_PART_HEADER_SIZE, budget, n);
      assert Greedy(rest, budget)[1..] == Greedy(rs[j + n..], budget);
      assert rest == rs[j..j + n] + rs[j + n..];
    }
  }

  lemma {:induction false} GreedyPacks(rs: seq<Rectangle>, budget: nat)
    ensures Concat(Greedy(rs, budget)) <= rs
    ensures Packs(Greedy(rs, budget), Concat(Greedy(rs, budget)), budget)
    decreases |rs|
  {
    assert rs[0..] == rs;
    var n := GreedyStep(rs, 0, budget);
    if n > 0 {
      GreedyPacks(rs[n..], budget);
      assert rs == rs[..n] + rs[n..];
      assert Greedy(rs, budget)[1..] == Greedy(rs[n..], budget);
    }
  }

  lemma PeelGroup(rs: seq<Rectangle>, i: nat, gs: seq<Group>, budget: nat) returns (e: nat)
    requires i < |rs| && Packs(gs, rs[i..], budget)
    ensures gs != [] && i < e == i + |gs[0]| <= |rs| && gs[0] == rs[i..e]
    ensures FitsPart(gs[0], budget) && Packs(gs[1..], rs[e..], budget)
  {
    assert Concat(gs) == gs[0] + Concat(gs[1..]);
    e := i + |gs[0]|;
    assert Concat(gs[1..]) == rs[i..][|gs[0]|..] == rs[e..];
    assert gs[0] == rs[i..][..|gs[0]|];
  }

  /** A slice of a group that fits is within greedy's reach. */
  lemma ReachOfSlice(rs: seq<Rectangle>, i: nat, j: nat, e: nat, budget: nat)
    requires i <= j <= e <= |rs| && FRAME_PART_HEADER_SIZE + ListSize(rs[i..e]) <= budget
    ensures e - j <= Reach(rs[j..], FRAME_PART_HEADER_SIZE, budget)
  {
    assert rs[i..e] == rs[i..j] + rs[j..e];
    ListSizeConcat(rs[i..j], rs[j..e]);
    assert rs[j..][..e - j] == rs[j..e];
    ReachIsLongest(rs[j..], FRAME_PART_HEADER_SIZE, budget, e - j);
  }

  /** Greedy stays ahead: whatever packs rs[i..] uses at least as many groups as
      greedy needs when it starts no earlier. */
  lemma {:induction false} GreedyStaysAhead(rs: seq<Rectangle>, i: nat, j: nat, gs: seq<Group>, budget: nat)
    requires i <= j <= |rs| && Packs(gs, rs[i..], budget)
    ensures Packable(rs[j..], budget) && |Greedy(rs[j..], budget)| <= |gs|
    decreases |gs|
  {
    hide *;
    if j == |rs| {
      assert rs[j..] == [];
      GreedyOfNothing(budget);
    } else {
      var e := PeelGroup(rs, i, gs, budget);
      if e <= j {
        GreedyStaysAhead(rs, e, j, gs[1..], budget);
      } else {
        ReachOfSlice(rs, i, j, e, budget);
        var n := GreedyStep(rs, j, budget);
        GreedyStaysAhead(rs, e, j + n, gs[1..], budget);
      }
    }
  }

  /** Packing optimality: greedy packs everything just when some packing exists, and
      then no packing uses fewer parts. */
  lemma GreedyIsOptimal(rs: seq<Rectangle>, budget: nat)
    ensures Packable(rs, budget) <==> exists gs :: Packs(gs, rs, budget)
    ensures forall gs :: Packs(gs, rs, budget) ==> |Greedy(rs, budget)| <= |gs|
  {
    GreedyPacks(rs, budget);
    forall gs | Packs(gs, rs, budget)
      ensures Packable(rs, budget) && |Greedy(rs, budget)| <= |gs|
    {
      assert rs[0..] == rs;
      GreedyStaysAhead(rs, 0, 0, gs, budget);
    }
  }

  lemma FirstGroupFits(rs: seq<Rectangle>, budget: nat)
    requires Greedy(rs, budget) != []
    ensures FRAME_PART_HEADER_SIZE < budget && rs != [] && 0 < ListSize(rs)
  {
    ListSizeCons(rs);
  }

  lemma TwoGroupsOverflow(rs: seq<Rectangle>, budget: nat) returns (e: nat)
    requires |Greedy(rs, budget)| >= 2
    ensures 0 < e <= |rs|
    ensures Greedy(rs, budget)[2..] == Greedy(rs[e..], budget)
    ensures budget < FRAME_PART_HEADER_SIZE + ListSize(rs[..e])
  {
    hide *;
    assert rs[0..] == rs;
    FirstGroupFits(rs, budget);
    var n := GreedyStep(rs, 0, budget);
    var m := GreedyStep(rs, n, budget);
    e := n + m;
    ReachIsLongest(rs, FRAME_PART_HEADER_SIZE, budget, n + 1);
    assert rs[..e] == rs[..n + 1] + rs[n + 1..e];
    ListSizeConcat(rs[..n + 1], rs[n + 1..e]);
  }

  lemma PairStep(k: nat, unit: nat, first: nat, rest: nat)
    requires k >= 2 && unit < first && (k - 2) / 2 * unit <= rest
    ensures k / 2 * unit < first + rest
  {
    assert k / 2 == (k - 2) / 2 + 1;
  }

  /** The next-fit bound: k greedy parts carry more than floor(k/2) part budgets. */
  lemma {:induction false} NextFitBound(rs: seq<Rectangle>, budget: nat)
    requires Greedy(rs, budget) != []
    ensures FRAME_PART_HEADER_SIZE < budget
    ensures |Greedy(rs, budget)| / 2 * (budget - FRAME_PART_HEADER_SIZE) < ListSize(rs)
    decreases |rs|
  {
    hide *;
    var k := |Greedy(rs, budget)|;
    FirstGroupFits(rs, budget);
    if k >= 2 {
      var e := TwoGroupsOverflow(rs, budget);
      ListSizeConcat(rs[..e], rs[e..]);
      assert rs == rs[..e] + rs[e..];
      if k > 2 {
        NextFitBound(rs[e..], budget);
      }
      PairStep(k, budget - FRAME_PART_HEADER_SIZE, ListSize(rs[..e]), ListSize(rs[e..]));
    }
  }

  // ----- SplitFrame

  function Stamp(h: Header, gs: seq<Group>): (parts: seq<FramePart>)
    ensures |parts| == |gs|
  {
    seq(|gs|, k requires 0 <= k < |gs| => FramePart(h, k, |gs|, gs[k]))
  }

  /** What SplitFrame returns, told from the greedy groups alone. */
  function Split(f: Frame, l: Limits): Result<seq<FramePart>, Error> {
    var limits := Bounded(l);
    var gs := Greedy(f.rectangles, limits.maxPixelPayload);
    if f.rectangles == [] then Err(Malformed)
    else if !Packable(f.rectangles, limits.maxPixelPayload) then
      Err(if |gs| >= limits.maxFrameParts then FrameTooLarge else PartTooLarge)
    else if |gs| <= 1 then Err(FrameFits)
    else if |gs| > limits.maxFrameParts then Err(FrameTooLarge)
    else Ok(Stamp(f.header, gs))
  }

  // ----- the packing loop's bookkeeping

  /** Groups gs are closed and hold exactly rs[..i]. */
  ghost predicate Closed(rs: seq<Rectangle>, i: nat, gs: seq<Group>, budget: nat)
    requires i <= |rs|
  {
    Concat(gs) == rs[..i] && Greedy(rs, budget) == gs + Greedy(rs[i..], budget)
  }

  /** Groups gs are closed, `open` is being filled, and together they hold rs[..i]. */
  ghost predicate Filling(rs: seq<Rectangle>, i: nat, gs: seq<Group>, open: Group, budget: nat)
    requires i <= |rs|
  {
    && FitsPart(open, budget)
    && |open| <= i
    && open == rs[i - |open|..i]
    && Closed(rs, i - |open|, gs, budget)
  }

  lemma ConcatOne(g: Group)
    ensures Concat([g]) == g && Concat([]) == []
  {
    assert [g][1..] == [];
  }

  lemma {:induction false} ConcatAppend(a: seq<Group>, b: seq<Group>)
    ensures Concat(a + b) == Concat(a) + Concat(b)
  {
    if a == [] {
      assert a + b == b;
    } else {
      assert (a + b)[1..] == a[1..] + b;
      ConcatAppend(a[1..], b);
    }
  }

  lemma ListSizeSnoc(g: Group, r: Rectangle)
    ensures ListSize(g + [r]) == ListSize(g) + RectSize(r)
    ensures ListSize([]) == 0 && ListSize([r]) == RectSize(r)
  {
    assert (g + [r])[..|g|] == g;
    assert [r][..0] == [];
  }

  lemma NothingPlaced(rs: seq<Rectangle>, budget: nat)
    ensures Closed(rs, 0, [], budget)
  {
    assert rs[0..] == rs && [] + Greedy(rs, budget) == Greedy(rs, budget);
  }

  lemma PlaceInOpen(rs: seq<Rectangle>, i: nat, gs: seq<Group>, open: Group, budget: nat)
    requires i < |rs| && FRAME_PART_HEADER_SIZE + ListSize(open) + RectSize(rs[i]) <= budget
    requires if open == [] then Closed(rs, i, gs, budget) else Filling(rs, i, gs, open, budget)
    ensures Filling(rs, i + 1, gs, open + [rs[i]], budget)
  {
    hide Concat, Greedy, ListSize;
    ListSizeSnoc(open, rs[i]);
    assert open + [rs[i]] == rs[i - |open|..i + 1];
  }

  /** The open group is closed when the frame ends or its next rectangle overflows it. */
  lemma CloseOpen(rs: seq<Rectangle>, i: nat, gs: seq<Group>, open: Group, budget: nat)
    requires i <= |rs| && open != [] && Filling(rs, i, gs, open, budget)
    requires i < |rs| ==> FRAME_PART_HEADER_SIZE + ListSize(open) + RectSize(rs[i]) > budget
    ensures Closed(rs, i, gs + [open], budget)
  {
    hide Concat, Greedy, Reach, ListSize;
    var j := i - |open|;
    var rest := rs[j..];
    var n := GreedyStep(rs, j, budget);
    assert rest[..|open|] == open;
    ReachIsLongest(rest, FRAME_PART_HEADER_SIZE, budget, |open|);
    if i < |rs| {
      assert rest[..|open| + 1] == open + [rs[i]];
      ListSizeSnoc(open, rs[i]);
      ReachIsLongest(rest, FRAME_PART_HEADER_SIZE, budget, |open| + 1);
    }
    assert n == |open|;
    ConcatAppend(gs, [open]);
    ConcatOne(open);
    assert rs[..j] + open == rs[..i];
    assert gs + ([open] + Greedy(rs[i..], budget)) == gs + [open] + Greedy(rs[i..], budget);
  }

  lemma AllClosed(rs: seq<Rectangle>, gs: seq<Group>, budget: nat)
    requires Closed(rs, |rs|, gs, budget)
    ensures Greedy(rs, budget) == gs && Packable(rs, budget)
  {
    GreedyOfNothing(budget);
    assert rs[|rs|..] == [] && rs[..|rs|] == rs && gs + [] == gs;
  }

  /** A full part list with a rectangle still to place can never fit. */
  lemma FrameNeverFits(rs: seq<Rectangle>, i: nat, gs: seq<Group>, budget: nat)
    requires i < |rs| && Closed(rs, i, gs, budget)
    ensures Packable(rs, budget) ==> |Greedy(rs, budget)| > |gs|
    ensures |Greedy(rs, budget)| >= |gs|
  {
    if Greedy(rs[i..], budget) == [] {
      assert gs + Greedy(rs[i..], budget) == gs;
    }
  }

  /** A rectangle no part can hold stops the packing. */
  lemma GreedyStuck(rs: seq<Rectangle>, i: nat, gs: seq<Group>, budget: nat)
    requires i < |rs| && FRAME_PART_HEADER_SIZE + RectSize(rs[i]) > budget && Closed(rs, i, gs, budget)
    ensures Greedy(rs, budget) == gs && !Packable(rs, budget)
  {
    assert Greedy(rs[i..], budget) == [];
    assert gs + [] == gs;
  }

  /** Each part repeats the frame's header and is numbered only once all parts are known. */
  method SplitFrame(f: Frame, l: Limits) returns (r: Result<seq<FramePart>, Error>)
    ensures r == Split(f, l)
  {
    hide Greedy, Concat, Reach, ListSize, Packable, Closed, Filling;
    var rs := f.rectangles;
    if |rs| == 0 {
      return Err(Malformed);
    }
    var limits := Bounded(l);
    var budget := limits.maxPixelPayload;
    var parts: seq<FramePart> := [];
    var current: Group := [];
    var currentSize := FRAME_PART_HEADER_SIZE;
    ghost var gs: seq<Group> := [];
    NothingPlaced(rs, budget);
    ListSizeSnoc([], rs[0]);
    for i := 0 to |rs|
      invariant |parts| == |gs| < limits.maxFrameParts
      invariant forall k :: 0 <= k < |gs| ==> parts[k] == FramePart(f.header, 0, 0, gs[k])
      invariant currentSize == FRAME_PART_HEADER_SIZE + ListSize(current)
      invariant if current == [] then i == 0 && Closed(rs, i, gs, budget)
                else Filling(rs, i, gs, current, budget)
    {
      var rectSize := RectSize(rs[i]);
      ListSizeSnoc(current, rs[i]);
      if currentSize + rectSize <= budget {
        PlaceInOpen(rs, i, gs, current, budget);
        current := current + [rs[i]];
        currentSize := currentSize + rectSize;
      } else {
        if |current| == 0 {
          GreedyStuck(rs, i, gs, budget);
          return Err(PartTooLarge);
        }
        CloseOpen(rs, i, gs, current, budget);
        parts := parts + [FramePart(f.header, 0, 0, current)];
        gs := gs + [current];
        if |parts| >= limits.maxFrameParts {
          FrameNeverFits(rs, i, gs, budget);
          return Err(FrameTooLarge);
        }
        if FRAME_PART_HEADER_SIZE + rectSize > budget {
          GreedyStuck(rs, i, gs, budget);
          return Err(PartTooLarge);
        }
        PlaceInOpen(rs, i, gs, [], budget);
        assert [] + [rs[i]] == [rs[i]];
        current := [rs[i]];
        currentSize := FRAME_PART_HEADER_SIZE + rectSize;
      }
    }
    CloseOpen(rs, |rs|, gs, current, budget);
    parts := parts + [FramePart(f.header, 0, 0, current)];
    gs := gs + [current];
    AllClosed(rs, gs, budget);
    if |parts| <= 1 {
      return Err(FrameFits);
    }
    if |parts| > limits.maxFrameParts {
      return Err(FrameTooLarge);
    }
    for i := 0 to |parts|
      invariant |parts| == |gs|
      invariant forall k :: 0 <= k < i ==> parts[k] == FramePart(f.header, k, |gs|, gs[k])
      invariant forall k :: i <= k < |gs| ==> parts[k] == FramePart(f.header, 0, 0, gs[k])
    {
      parts := parts[i := parts[i].(partIndex := i, partCount := |parts|)];
    }
    assert parts == Stamp(f.header, gs);
    return Ok(parts);
  }

  // ----- what SplitFrame promises its caller

  /** The parts of a successful split: the frame's rectangles in order, each part
      within budget, numbered, and as few as any packing allows. */
  lemma SplitIsMinimalPacking(f: Frame, l: Limits)
    requires Split(f, l).Ok?
    ensures var parts := Split(f, l).value;
            var gs := Greedy(f.rectangles, Bounded(l).maxPixelPayload);
            && parts == Stamp(f.header, gs)
            && 2 <= |parts| <= Bounded(l).maxFrameParts
            && Packs(gs, f.rectangles, Bounded(l).maxPixelPayload)
            && forall other :: Packs(other, f.rectangles, Bounded(l).maxPixelPayload) ==> |parts| <= |other|
  {
    GreedyPacks(f.rectangles, Bounded(l).maxPixelPayload);
    GreedyIsOptimal(f.rectangles, Bounded(l).maxPixelPayload);
  }

  lemma SingleGroup(rs: seq<Rectangle>, budget: nat, gs: seq<Group>)
    requires rs != [] && Packs(gs, rs, budget) && |gs| <= 1
    ensures FitsPart(rs, budget)
  {
    assert Concat(gs) == gs[0] + Concat(gs[1..]);
    assert rs == gs[0];
  }

  ghost predicate PacksWithin(f: Frame, l: Limits, gs: seq<Group>) {
    Packs(gs, f.rectangles, Bounded(l).maxPixelPayload) && |gs| <= Bounded(l).maxFrameParts
  }

  /** Every verdict of SplitFrame is exact: success or "fits" just when a packing
      within the part cap exists, "fits" just when one message is enough, and
      "part too large" only when no packing of any length exists. */
  lemma SplitVerdicts(f: Frame, l: Limits)
    requires f.rectangles != []
    ensures Split(f, l).Ok? || Split(f, l) == Err(FrameFits) <==> exists gs :: PacksWithin(f, l, gs)
    ensures Split(f, l) == Err(FrameFits) <==> FitsPart(f.rectangles, Bounded(l).maxPixelPayload)
    ensures Split(f, l) == Err(PartTooLarge) ==>
              !exists gs :: Packs(gs, f.rectangles, Bounded(l).maxPixelPayload)
  {
    var rs, budget := f.rectangles, Bounded(l).maxPixelPayload;
    GreedyIsOptimal(rs, budget);
    GreedyPacks(rs, budget);
    var gs := Greedy(rs, budget);
    if Split(f, l).Ok? || Split(f, l) == Err(FrameFits) {
      assert PacksWithin(f, l, gs);
    }
    if FitsPart(rs, budget) {
      ConcatOne(rs);
      assert Packs([rs], rs, budget);
    }
    if Split(f, l) == Err(FrameFits) {
      SingleGroup(rs, budget, gs);
    }
  }

  // ----- which of the two errors

  lemma SizeOfOne(r: Rectangle, budget: nat)
    ensures ListSize([r]) == 22 + |r.pixels| && (FitsPart([r], budget) <==> 53 + |r.pixels| <= budget)
  {
    assert [r][..0] == [];
  }

  /** What a packing holds fits a part on its own. */
  lemma {:induction false} PackedFits(gs: seq<Group>, rs: seq<Rectangle>, budget: nat, j: nat)
    requires Packs(gs, rs, budget) && j < |rs|
    ensures FitsPart([rs[j]], budget)
    decreases |gs|
  {
    assert rs[0..] == rs;
    var e := PeelGroup(rs, 0, gs, budget);
    if j < e {
      var g := rs[0..e];
      assert g == g[..j] + [rs[j]] + g[j + 1..];
      ListSizeConcat(g[..j] + [rs[j]], g[j + 1..]);
      ListSizeConcat(g[..j], [rs[j]]);
    } else {
      PackedFits(gs[1..], rs[e..], budget, j - e);
    }
  }

  lemma {:induction false} ReachOfPrefix(rs: seq<Rectangle>, used: nat, budget: nat, k: nat)
    requires k <= |rs|
    ensures Reach(rs[..k], used, budget)
            == if k <= Reach(rs, used, budget) then k else Reach(rs, used, budget)
  {
    if k > 0 && used + RectSize(rs[0]) <= budget {
      assert rs[..k][1..] == rs[1..][..k - 1];
      ReachOfPrefix(rs[1..], used + RectSize(rs[0]), budget, k - 1);
    }
  }

  /** Where greedy gets stuck: at a rectangle no part can hold, all before it packed. */
  lemma {:induction false} StuckExactly(rs: seq<Rectangle>, budget: nat) returns (k: nat)
    requires !Packable(rs, budget)
    ensures k < |rs| && !FitsPart([rs[k]], budget)
    ensures Greedy(rs[..k], budget) == Greedy(rs, budget) && Packable(rs[..k], budget)
    decreases |rs|
  {
    assert rs[0..] == rs;
    var n := GreedyStep(rs, 0, budget);
    if n == 0 {
      k := 0;
      if rs == [] {
        GreedyOfNothing(budget);
      }
      SizeOfOne(rs[0], budget);
      GreedyOfNothing(budget);
    } else {
      var k' := StuckExactly(rs[n..], budget);
      k := n + k';
      ReachOfPrefix(rs, FRAME_PART_HEADER_SIZE, budget, k);
      assert rs[..k][..n] == rs[..n] && rs[..k][n..] == rs[n..][..k'] && rs[..k][0..] == rs[..k];
      var n' := GreedyStep(rs[..k], 0, budget);
    }
  }

  /** Some rectangle fits no part, and those before it fit fewer parts than there may be. */
  ghost predicate MeetsGiant(f: Frame, l: Limits, k: nat, gs: seq<Group>) {
    && k < |f.rectangles| && 53 + |f.rectangles[k].pixels| > Bounded(l).maxPixelPayload
    && Packs(gs, f.rectangles[..k], Bounded(l).maxPixelPayload) && |gs| < Bounded(l).maxFrameParts
  }

  lemma GiantIsStuck(f: Frame, l: Limits, k: nat, gs: seq<Group>)
    requires MeetsGiant(f, l, k, gs)
    ensures Split(f, l) == Err(PartTooLarge)
  {
    hide Packs, Bounded, Greedy, FitsPart;
    var rs, budget := f.rectangles, Bounded(l).maxPixelPayload;
    SizeOfOne(rs[k], budget);
    GreedyPacks(rs, budget);
    if Packable(rs, budget) {
      PackedFits(Greedy(rs, budget), rs, budget, k);
    }
    var j := StuckExactly(rs, budget);
    GreedyPacks(rs[..j], budget);
    OneGiant(rs, j, Greedy(rs[..j], budget), k, gs, budget);
    GreedyIsOptimal(rs[..k], budget);
  }

  lemma OneGiant(rs: seq<Rectangle>, j: nat, a: seq<Group>, k: nat, b: seq<Group>, budget: nat)
    requires j < |rs| && k < |rs| && Packs(a, rs[..j], budget) && Packs(b, rs[..k], budget)
    requires !FitsPart([rs[j]], budget) && !FitsPart([rs[k]], budget)
    ensures j == k
  {
    hide Packs, FitsPart;
    if j < k {
      PackedFits(b, rs[..k], budget, j);
    } else if k < j {
      PackedFits(a, rs[..j], budget, k);
    }
  }

  /** The two ways to be too large: a rectangle that fits no part is reported when the loop meets
      it with parts to spare; everything else that has no packing within the cap is a frame too
      large. */
  lemma TooLargeExactly(f: Frame, l: Limits)
    requires f.rectangles != []
    ensures Split(f, l) == Err(PartTooLarge) <==> exists k: nat, gs :: MeetsGiant(f, l, k, gs)
    ensures Split(f, l) == Err(FrameTooLarge)
            <==> !(exists k: nat, gs :: MeetsGiant(f, l, k, gs)) && !(exists gs :: PacksWithin(f, l, gs))
  {
    hide MeetsGiant, Packs, Bounded;
    var rs, budget := f.rectangles, Bounded(l).maxPixelPayload;
    forall k: nat, gs | MeetsGiant(f, l, k, gs)
      ensures Split(f, l) == Err(PartTooLarge)
    {
      GiantIsStuck(f, l, k, gs);
    }
    if Split(f, l) == Err(PartTooLarge) {
      var k := StuckExactly(rs, budget);
      SizeOfOne(rs[k], budget);
      GreedyPacks(rs[..k], budget);
      assert MeetsGiant(f, l, k, Greedy(rs[..k], budget)) by { Giant(f, l, k, Greedy(rs[..k], budget)); }
    }
    SplitVerdicts(f, l);
  }

  lemma Giant(f: Frame, l: Limits, k: nat, gs: seq<Group>)
    requires k < |f.rectangles| && 53 + |f.rectangles[k].pixels| > Bounded(l).maxPixelPayload
    requires Packs(gs, f.rectangles[..k], Bounded(l).maxPixelPayload) && |gs| < Bounded(l).maxFrameParts
    ensures MeetsGiant(f, l, k, gs)
  {
  }
}
