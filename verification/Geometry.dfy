/** Rectangles, overlap, and the counting argument behind keyframe acceptance. */
module Geometry {
  import opened Types

  predicate Inside(r: Rect, px: nat, py: nat) {
    r.x <= px < r.x + r.w && r.y <= py < r.y + r.h
  }

  /** The overlap test of the validator and of the reassembler. */
  predicate Overlaps(a: Rect, b: Rect) {
    a.x < b.x + b.w && b.x < a.x + a.w && a.y < b.y + b.h && b.y < a.y + a.h
  }

  predicate InBounds(r: Rect, width: nat, height: nat) {
    0 < r.w && 0 < r.h && r.x + r.w <= width && r.y + r.h <= height
  }

  ghost predicate AllInBounds(rs: seq<Rect>, width: nat, height: nat) {
    forall k :: 0 <= k < |rs| ==> InBounds(rs[k], width, height)
  }

  ghost predicate Disjoint(rs: seq<Rect>) {
    forall j, k :: 0 <= j < k < |rs| ==> !Overlaps(rs[j], rs[k])
  }

  ghost predicate Covers(rs: seq<Rect>, px: nat, py: nat) {
    exists k :: 0 <= k < |rs| && Inside(rs[k], px, py)
  }

  function Area(r: Rect): nat { r.w * r.h }

  function TotalArea(rs: seq<Rect>): nat {
    if rs == [] then 0 else TotalArea(rs[..|rs| - 1]) + Area(rs[|rs| - 1])
  }

  /** The overlap test is exact: it holds just when some pixel lies in both. */
  lemma OverlapIsSharedPixel(a: Rect, b: Rect)
    requires a.w > 0 && a.h > 0 && b.w > 0 && b.h > 0
    ensures Overlaps(a, b) <==> exists px: nat, py: nat :: Inside(a, px, py) && Inside(b, px, py)
  {
    if Overlaps(a, b) {
      var px := if a.x < b.x then b.x else a.x;
      var py := if a.y < b.y then b.y else a.y;
      assert Inside(a, px, py) && Inside(b, px, py);
    }
  }

  lemma {:induction false} TotalAreaConcat(a: seq<Rect>, b: seq<Rect>)
    ensures TotalArea(a + b) == TotalArea(a) + TotalArea(b)
    decreases |b|
  {
    if b == [] {
      assert a + b == a;
    } else {
      TotalAreaConcat(a, b[..|b| - 1]);
      assert (a + b)[..|a + b| - 1] == a + b[..|b| - 1];
    }
  }

  // ----- counting pixels

  ghost function Cells(r: Rect): set<(nat, nat)> {
    set px: nat, py: nat | r.x <= px < r.x + r.w && r.y <= py < r.y + r.h :: (px, py)
  }

  ghost function AllCells(rs: seq<Rect>): set<(nat, nat)> {
    if rs == [] then {} else AllCells(rs[..|rs| - 1]) + Cells(rs[|rs| - 1])
  }

  lemma {:induction false} RowCount(x: nat, y: nat, w: nat)
    ensures |Cells(Rect(x, y, w, 1))| == w
  {
    if w == 0 {
      assert Cells(Rect(x, y, w, 1)) == {};
    } else {
      RowCount(x, y, w - 1);
      assert Cells(Rect(x, y, w, 1)) == Cells(Rect(x, y, w - 1, 1)) + {(x + w - 1, y)};
    }
  }

  lemma SplitLastRow(r: Rect, top: Rect, last: Rect)
    requires r.h > 0
    requires top == Rect(r.x, r.y, r.w, r.h - 1) && last == Rect(r.x, r.y + r.h - 1, r.w, 1)
    ensures |Cells(r)| == |Cells(top)| + |Cells(last)|
  {
    var whole, upper, lower := Cells(r), Cells(top), Cells(last);
    assert whole == upper + lower by {
      forall p: (nat, nat)
        ensures p in whole <==> p in upper || p in lower
      {}
    }
    assert upper !! lower;
  }

  lemma AreaLastRow(w: nat, h: nat)
    requires h > 0
    ensures w * h == w * (h - 1) + w
  {
  }

  lemma {:induction false} CellCount(r: Rect)
    ensures |Cells(r)| == Area(r)
    decreases r.h
  {
    if r.h == 0 {
      assert Cells(r) == {};
    } else {
      var top := Rect(r.x, r.y, r.w, r.h - 1);
      var last := Rect(r.x, r.y + r.h - 1, r.w, 1);
      SplitLastRow(r, top, last);
      AreaLastRow(r.w, r.h);
      CellCount(top);
      RowCount(last.x, last.y, last.w);
    }
  }

  lemma {:induction false} InAllCells(rs: seq<Rect>, px: nat, py: nat)
    ensures (px, py) in AllCells(rs) <==> Covers(rs, px, py)
  {
    if rs != [] {
      var front, last := rs[..|rs| - 1], rs[|rs| - 1];
      InAllCells(front, px, py);
      if Covers(front, px, py) {
        var k :| 0 <= k < |front| && Inside(front[k], px, py);
        assert Inside(rs[k], px, py);
      }
      if Covers(rs, px, py) {
        var k :| 0 <= k < |rs| && Inside(rs[k], px, py);
        assert k < |front| ==> Inside(front[k], px, py);
      }
    }
  }

  lemma {:induction false} AllCellsCount(rs: seq<Rect>)
    requires Disjoint(rs)
    ensures |AllCells(rs)| == TotalArea(rs)
  {
    if rs != [] {
      var front, last := rs[..|rs| - 1], rs[|rs| - 1];
      AllCellsCount(front);
      CellCount(last);
      forall px: nat, py: nat | (px, py) in AllCells(front)
        ensures (px, py) !in Cells(last)
      {
        InAllCells(front, px, py);
        var k :| 0 <= k < |front| && Inside(front[k], px, py);
        assert !Overlaps(rs[k], rs[|rs| - 1]);
      }
      assert AllCells(front) !! Cells(last);
    }
  }

  lemma SubsetOfSameSize<T>(a: set<T>, b: set<T>)
    requires a <= b && |a| == |b|
    ensures a == b
  {
    assert b == a + (b - a);
  }

  /** Pairwise-disjoint rectangles never count more than the display's pixels. */
  lemma AreaWithinDisplay(rs: seq<Rect>, width: nat, height: nat)
    requires Disjoint(rs) && AllInBounds(rs, width, height)
    ensures TotalArea(rs) <= width * height
    ensures AllCells(rs) <= Cells(Rect(0, 0, width, height))
  {
    var all := Cells(Rect(0, 0, width, height));
    AllCellsCount(rs);
    CellCount(Rect(0, 0, width, height));
    forall px: nat, py: nat | (px, py) in AllCells(rs)
      ensures (px, py) in all
    {
      InAllCells(rs, px, py);
      var k :| 0 <= k < |rs| && Inside(rs[k], px, py);
      assert InBounds(rs[k], width, height);
    }
    assert all == AllCells(rs) + (all - AllCells(rs));
  }

  /** Coverage by counting: disjoint in-display rectangles cover every pixel
      exactly when their areas add up to the display's area. */
  lemma CoverageByCounting(rs: seq<Rect>, width: nat, height: nat)
    requires Disjoint(rs) && AllInBounds(rs, width, height)
    ensures TotalArea(rs) == width * height
            <==> forall px: nat, py: nat :: px < width && py < height ==> Covers(rs, px, py)
  {
    var all := Cells(Rect(0, 0, width, height));
    AllCellsCount(rs);
    CellCount(Rect(0, 0, width, height));
    AreaWithinDisplay(rs, width, height);
    if TotalArea(rs) == width * height {
      SubsetOfSameSize(AllCells(rs), all);
      forall px: nat, py: nat | px < width && py < height
        ensures Covers(rs, px, py)
      {
        assert (px, py) in all;
        InAllCells(rs, px, py);
      }
    }
    if forall px: nat, py: nat :: px < width && py < height ==> Covers(rs, px, py) {
      forall px: nat, py: nat | (px, py) in all
        ensures (px, py) in AllCells(rs)
      {
        InAllCells(rs, px, py);
      }
      assert AllCells(rs) == all;
    }
  }

  /** Two disjoint lists over the same pixels count the same area. */
  lemma SamePixelsSameArea(a: seq<Rect>, b: seq<Rect>)
    requires Disjoint(a) && Disjoint(b)
    requires forall px: nat, py: nat :: Covers(a, px, py) <==> Covers(b, px, py)
    ensures TotalArea(a) == TotalArea(b)
  {
    AllCellsCount(a);
    AllCellsCount(b);
    forall p: (nat, nat)
      ensures p in AllCells(a) <==> p in AllCells(b)
    {
      InAllCells(a, p.0, p.1);
      InAllCells(b, p.0, p.1);
    }
    assert AllCells(a) == AllCells(b);
  }

  // ----- joining lists of rectangles

  lemma CoversConcat(a: seq<Rect>, b: seq<Rect>, px: nat, py: nat)
    ensures Covers(a + b, px, py) <==> Covers(a, px, py) || Covers(b, px, py)
  {
    var all := a + b;
    if Covers(all, px, py) {
      var k :| 0 <= k < |all| && Inside(all[k], px, py);
      if k < |a| {
        assert Inside(a[k], px, py);
      } else {
        assert Inside(b[k - |a|], px, py);
      }
    }
    if Covers(a, px, py) {
      var k :| 0 <= k < |a| && Inside(a[k], px, py);
      assert Inside(all[k], px, py);
    }
    if Covers(b, px, py) {
      var k :| 0 <= k < |b| && Inside(b[k], px, py);
      assert Inside(all[|a| + k], px, py);
    }
  }

  lemma CoversOne(r: Rect, px: nat, py: nat)
    ensures Covers([r], px, py) <==> Inside(r, px, py)
  {
    assert Covers([r], px, py) <== Inside([r][0], px, py);
  }

  /** Lists that share no pixel join to a disjoint list. */
  lemma DisjointConcat(a: seq<Rect>, b: seq<Rect>, width: nat, height: nat)
    requires Disjoint(a) && Disjoint(b) && AllInBounds(a, width, height) && AllInBounds(b, width, height)
    requires forall px: nat, py: nat :: !(Covers(a, px, py) && Covers(b, px, py))
    ensures Disjoint(a + b) && AllInBounds(a + b, width, height)
  {
    forall j, k | 0 <= j < |a| && 0 <= k < |b|
      ensures !Overlaps(a[j], b[k])
    {
      assert InBounds(a[j], width, height) && InBounds(b[k], width, height);
      OverlapIsSharedPixel(a[j], b[k]);
      if Overlaps(a[j], b[k]) {
        var px: nat, py: nat :| Inside(a[j], px, py) && Inside(b[k], px, py);
        assert Covers(a, px, py) && Covers(b, px, py);
      }
    }
  }
}
