/** Which rectangles the damage comes in: the maximal dirty runs in reading order, each joined
    with those that continue it straight down, and bands of as many rows as the budget holds. */
module Runs {
  import opened Types
  import opened Geometry
  import opened Raster
  import opened Tiling

  // ----- runs

  /** r is the run of dirty tiles from tx to e in tile row ty, clipped to the image, and neither
      of its neighbours in the row is dirty. */
  ghost predicate MaximalRun(d: seq<bool>, g: Grid, r: Rect, tx: nat, e: nat, ty: nat)
    requires DirtyMap(d, g)
  {
    && tx < e <= g.Cols() && ty < g.Rows()
    && r.x == tx * g.tile && r.y == ty * g.tile
    && r.x + r.w == (if e * g.tile < g.width then e * g.tile else g.width)
    && r.y + r.h == (if r.y + g.tile < g.height then r.y + g.tile else g.height)
    && (forall t :: tx <= t < e ==> At(d, g, t, ty))
    && (tx > 0 ==> !At(d, g, tx - 1, ty))
    && (e < g.Cols() ==> !At(d, g, e, ty))
  }

  ghost predicate IsRun(d: seq<bool>, g: Grid, r: Rect)
    requires DirtyMap(d, g)
  {
    exists tx: nat, e: nat, ty: nat :: MaximalRun(d, g, r, tx, e, ty)
  }

  /** Top to bottom, and left to right within a row. */
  predicate Before(a: Rect, b: Rect) {
    a.y < b.y || (a.y == b.y && a.x + a.w <= b.x)
  }

  /** Maximal runs in reading order, from tile tx of row ty on. */
  ghost predicate InOrder(rs: seq<Rect>, d: seq<bool>, g: Grid, tx: nat, ty: nat)
    requires DirtyMap(d, g)
  {
    && (forall k :: 0 <= k < |rs| ==> IsRun(d, g, rs[k]))
    && (forall i, j :: 0 <= i < j < |rs| ==> Before(rs[i], rs[j]))
    && (forall k :: 0 <= k < |rs| ==> rs[k].y > ty * g.tile || (rs[k].y == ty * g.tile && rs[k].x >= tx * g.tile))
  }

  lemma StripIsRun(d: seq<bool>, g: Grid, tx: nat, e: nat, ty: nat)
    requires DirtyMap(d, g) && tx < e <= g.Cols() && ty < g.Rows()
    requires forall t :: tx <= t < e ==> At(d, g, t, ty)
    requires (tx > 0 ==> !At(d, g, tx - 1, ty)) && (e < g.Cols() ==> !At(d, g, e, ty))
    ensures tx * g.tile < e * g.tile && tx * g.tile < g.width && ty * g.tile < g.height
    ensures MaximalRun(d, g, Strip(g, tx, e, ty), tx, e, ty) && IsRun(d, g, Strip(g, tx, e, ty))
  {
    StripWellFormed(g, tx, e, ty);
    AnyRun(d, g, Strip(g, tx, e, ty), tx, e, ty);
  }

  lemma AnyRun(d: seq<bool>, g: Grid, r: Rect, tx: nat, e: nat, ty: nat)
    requires DirtyMap(d, g) && MaximalRun(d, g, r, tx, e, ty)
    ensures IsRun(d, g, r)
  {
    hide MaximalRun;
  }

  lemma {:induction false} RowInOrder(d: seq<bool>, g: Grid, tx: nat, ty: nat)
    requires DirtyMap(d, g) && tx <= g.Cols() && ty < g.Rows()
    requires tx > 0 ==> tx == g.Cols() || !At(d, g, tx - 1, ty) || !At(d, g, tx, ty)
    ensures var rs := RowRuns(d, g, tx, ty);
            InOrder(rs, d, g, tx, ty) && forall k :: 0 <= k < |rs| ==> rs[k].y == ty * g.tile
    decreases g.Cols() - tx
  {
    hide At, IsRun, MaximalRun;
    if tx < g.Cols() {
      if !At(d, g, tx, ty) {
        RowInOrder(d, g, tx + 1, ty);
        OneTileOn(RowRuns(d, g, tx + 1, ty), d, g, tx, ty);
      } else {
        var e := RunEnd(d, g, tx + 1, ty);
        StripIsRun(d, g, tx, e, ty);
        RowInOrder(d, g, e, ty);
        var first, rest := Strip(g, tx, e, ty), RowRuns(d, g, e, ty);
        assert RowRuns(d, g, tx, ty) == [first] + rest;
        RunEnds(d, g, first, tx, e, ty);
        assert forall k :: 0 <= k < |rest| ==> Before(first, rest[k]);
      }
    }
  }

  lemma OneTileOn(rs: seq<Rect>, d: seq<bool>, g: Grid, tx: nat, ty: nat)
    requires DirtyMap(d, g) && InOrder(rs, d, g, tx + 1, ty)
    ensures InOrder(rs, d, g, tx, ty)
  {
    hide IsRun;
    Distribute(tx, 1, g.tile);
    forall k | 0 <= k < |rs|
      ensures rs[k].y > ty * g.tile || (rs[k].y == ty * g.tile && rs[k].x >= tx * g.tile)
    {
    }
  }

  lemma RunEnds(d: seq<bool>, g: Grid, r: Rect, tx: nat, e: nat, ty: nat)
    requires DirtyMap(d, g) && MaximalRun(d, g, r, tx, e, ty)
    ensures r.x + r.w <= e * g.tile && r.y == ty * g.tile && r.x == tx * g.tile && tx * g.tile < e * g.tile
  {
    MulStep(tx, e, g.tile);
  }

  lemma NoRuns(d: seq<bool>, g: Grid, ty: nat)
    requires DirtyMap(d, g)
    ensures InOrder([], d, g, 0, ty)
  {
  }

  lemma RowThenRest(row: seq<Rect>, rest: seq<Rect>, d: seq<bool>, g: Grid, ty: nat)
    requires DirtyMap(d, g) && InOrder(row, d, g, 0, ty) && InOrder(rest, d, g, 0, ty + 1)
    requires forall k :: 0 <= k < |row| ==> row[k].y == ty * g.tile
    ensures InOrder(row + rest, d, g, 0, ty)
  {
    hide IsRun;
    Distribute(ty, 1, g.tile);
    var all := row + rest;
    forall k | 0 <= k < |all|
      ensures IsRun(d, g, all[k])
    {
      assert all[k] == if k < |row| then row[k] else rest[k - |row|];
    }
    forall i, j | 0 <= i < j < |all|
      ensures Before(all[i], all[j])
    {
      if j < |row| {
        assert Before(row[i], row[j]);
      } else if |row| <= i {
        assert Before(rest[i - |row|], rest[j - |row|]);
      } else {
        assert rest[j - |row|].y >= (ty + 1) * g.tile;
      }
    }
    forall k | 0 <= k < |all|
      ensures all[k].y > ty * g.tile || (all[k].y == ty * g.tile && all[k].x >= 0 * g.tile)
    {
      if |row| <= k {
        assert rest[k - |row|].y >= (ty + 1) * g.tile;
      }
    }
  }

  /** The runs the scan collects are maximal, in reading order. */
  lemma {:induction false} RunsInOrder(d: seq<bool>, g: Grid, ty: nat)
    requires DirtyMap(d, g) && ty <= g.Rows()
    ensures InOrder(RunsFrom(d, g, ty), d, g, 0, ty)
    decreases g.Rows() - ty
  {
    hide InOrder, RowRuns;
    if ty == g.Rows() {
      NoRuns(d, g, ty);
    } else {
      RunsInOrder(d, g, ty + 1);
      RowInOrder(d, g, 0, ty);
      RowThenRest(RowRuns(d, g, 0, ty), RunsFrom(d, g, ty + 1), d, g, ty);
    }
  }

  // ----- joining

  /** r covers the runs of the column one below the other, each continuing those above. */
  ghost predicate Stacks(column: seq<Rect>, r: Rect) {
    && column != []
    && r.x == column[0].x && r.y == column[0].y && r.w == column[0].w
    && r.y + r.h == column[|column| - 1].y + column[|column| - 1].h
    && (forall k :: 0 <= k < |column| - 1 ==>
          column[k + 1].x == column[k].x && column[k + 1].w == column[k].w
          && column[k + 1].y == column[k].y + column[k].h)
  }

  function Flat(columns: seq<seq<Rect>>): seq<Rect> {
    if columns == [] then [] else Flat(columns[..|columns| - 1]) + columns[|columns| - 1]
  }

  /** The runs cut into columns, one for each rectangle, none of which the next continues. */
  ghost predicate Columns(columns: seq<seq<Rect>>, merged: seq<Rect>, runs: seq<Rect>) {
    && |columns| == |merged| && Flat(columns) == runs
    && (forall k :: 0 <= k < |merged| ==> Stacks(columns[k], merged[k]))
    && (forall k :: 0 <= k < |merged| - 1 ==>
          !(merged[k + 1].x == merged[k].x && columns[k + 1][0].w == merged[k].w
            && merged[k + 1].y == merged[k].y + merged[k].h))
  }

  lemma FlatLast(front: seq<seq<Rect>>, last: seq<Rect>)
    ensures Flat(front + [last]) == Flat(front) + last
  {
    assert (front + [last])[..|front|] == front;
  }

  lemma StackGrows(column: seq<Rect>, r: Rect, next: Rect)
    requires Stacks(column, r) && Continues(r, next)
    ensures Stacks(column + [next], r.(h := r.h + next.h))
  {
    var longer := column + [next];
    assert forall k :: 0 <= k < |column| ==> longer[k] == column[k];
    SameWidth(column, r, |column| - 1);
  }

  lemma {:induction false} SameWidth(column: seq<Rect>, r: Rect, k: nat)
    requires Stacks(column, r) && k < |column|
    ensures column[k].x == r.x && column[k].w == r.w
  {
    if k > 0 {
      SameWidth(column, r, k - 1);
    }
  }

  lemma MergeOneColumns(columns: seq<seq<Rect>>, merged: seq<Rect>, runs: seq<Rect>, r: Rect) returns (after: seq<seq<Rect>>)
    requires Columns(columns, merged, runs)
    ensures Columns(after, MergeOne(merged, r), runs + [r])
  {
    hide Stacks;
    var n := |merged|;
    if n > 0 && Continues(merged[n - 1], r) {
      var front, last := columns[..n - 1], columns[n - 1];
      assert columns == front + [last];
      after := front + [last + [r]];
      FlatLast(front, last);
      FlatLast(front, last + [r]);
      StackGrows(last, merged[n - 1], r);
      StackTops(columns, merged);
    } else {
      after := columns + [[r]];
      FlatLast(columns, [r]);
      OneRun(r);
    }
  }

  lemma OneRun(r: Rect)
    ensures Stacks([r], r)
  {
  }

  lemma StackTops(columns: seq<seq<Rect>>, merged: seq<Rect>)
    requires |columns| == |merged| && forall k :: 0 <= k < |merged| ==> Stacks(columns[k], merged[k])
    ensures forall k :: 0 <= k < |merged| ==> columns[k] != [] && columns[k][0].w == merged[k].w
  {
  }

  lemma {:induction false} MergeIntoColumns(columns: seq<seq<Rect>>, merged: seq<Rect>, done: seq<Rect>, runs: seq<Rect>)
    returns (after: seq<seq<Rect>>)
    requires Columns(columns, merged, done)
    ensures Columns(after, MergeInto(merged, runs), done + runs)
    decreases |runs|
  {
    hide Columns;
    if runs == [] {
      assert done + runs == done;
      after := columns;
    } else {
      var next := MergeOneColumns(columns, merged, done, runs[0]);
      after := MergeIntoColumns(next, MergeOne(merged, runs[0]), done + [runs[0]], runs[1..]);
      assert done + [runs[0]] + runs[1..] == done + runs;
    }
  }

  /** The damage rectangles: the maximal dirty runs in reading order, cut into the longest columns
      of consecutive runs that continue one another, one rectangle for each column. */
  lemma DamageExactly(d: seq<bool>, g: Grid) returns (columns: seq<seq<Rect>>, runs: seq<Rect>)
    requires DirtyMap(d, g)
    ensures InOrder(runs, d, g, 0, 0)
    ensures forall px: nat, py: nat :: px < g.width && py < g.height ==> (Covers(runs, px, py) <==> IsDirty(d, g, px, py))
    ensures Columns(columns, DamageRects(d, g), runs)
  {
    hide InOrder, Columns, RunsFrom, IsDirty, Covers;
    runs := RunsFrom(d, g, 0);
    RunsInOrder(d, g, 0);
    forall px: nat, py: nat | px < g.width && py < g.height
      ensures Covers(runs, px, py) <==> IsDirty(d, g, px, py)
    {
      RunsPixels(d, g, 0, px, py);
    }
    assert Columns([], [], []) by { NoColumns(); }
    columns := MergeIntoColumns([], [], [], runs);
    assert [] + runs == runs;
  }

  lemma NoColumns()
    ensures Columns([], [], [])
  {
  }

  // ----- bands

  /** rows is the most whole rows of the width that fit the budget, at least one, at most the
      largest 32-bit number. */
  predicate MostRows(width: nat, budget: nat, rows: nat) {
    if width == 0 || width * 4 > budget then rows == 1
    else
      && 1 <= rows <= 4294967295 && rows * (width * 4) <= budget
      && (rows < 4294967295 ==> budget < (rows + 1) * (width * 4))
  }

  lemma BandRowsExactly(width: nat, budget: nat)
    ensures MostRows(width, budget, BandRows(width, budget))
  {
    if width > 0 {
      var row := width * 4;
      var q := budget / row;
      Floor(budget, row);
      Distribute(q, 1, row);
      if row <= budget {
        QuotientAtLeast(budget, row, 1);
        MulMonotone(BandRows(width, budget), q, row);
      } else if q > 0 {
        MulMonotone(1, q, row);
      }
    }
  }

  /** Bands of exactly `rows` rows, the last of what is left. */
  ghost predicate InBands(bands: seq<Rect>, r: Rect, y: nat, rows: nat) {
    && (forall k :: 0 <= k < |bands| ==>
          && bands[k].x == r.x && bands[k].w == r.w && bands[k].y == r.y + y + k * rows
          && bands[k].h == (if y + k * rows + rows <= r.h then rows else r.h - (y + k * rows)) && 0 < bands[k].h)
    && (y < r.h ==> bands != [])
    && (bands != [] ==> bands[|bands| - 1].y + bands[|bands| - 1].h == r.y + r.h)
  }

  lemma {:induction false} BandsFromExactly(r: Rect, y: nat, rows: nat)
    requires 0 < rows && y <= r.h
    ensures InBands(BandsFrom(r, y, rows), r, y, rows)
    decreases r.h - y
  {
    if y < r.h {
      var h := Min(rows, r.h - y);
      var first, rest := Rect(r.x, r.y + y, r.w, h), BandsFrom(r, y + h, rows);
      BandsFromExactly(r, y + h, rows);
      var bands := [first] + rest;
      forall k | 0 <= k < |bands|
        ensures bands[k].x == r.x && bands[k].w == r.w && bands[k].y == r.y + y + k * rows
        ensures bands[k].h == (if y + k * rows + rows <= r.h then rows else r.h - (y + k * rows)) && 0 < bands[k].h
      {
        if k > 0 {
          assert bands[k] == rest[k - 1];
          Distribute(k - 1, 1, rows);
        }
      }
    }
  }

  /** A rectangle that fits the budget stays whole; any other is cut into bands of the most rows
      that do, from the top down. */
  lemma BandsExactly(r: Rect, budget: nat) returns (rows: nat)
    requires 0 < r.h
    ensures MostRows(r.w, budget, rows)
    ensures if r.h <= rows then Bands(r, budget) == [r] else InBands(Bands(r, budget), r, 0, rows)
  {
    hide BandRows, MostRows;
    rows := BandRows(r.w, budget);
    BandRowsExactly(r.w, budget);
    BandsFromExactly(r, 0, rows);
  }

  /** Banding a list bands its rectangles one after the other. */
  lemma {:induction false} BandAllConcat(a: seq<Rect>, b: seq<Rect>, budget: nat)
    ensures BandAll(a + b, budget) == BandAll(a, budget) + BandAll(b, budget)
    decreases |b|
  {
    hide Bands;
    if b == [] {
      assert a + b == a;
    } else {
      var front, last := b[..|b| - 1], Bands(b[|b| - 1], budget);
      BandAllConcat(a, front, budget);
      assert (a + b)[..|a + b| - 1] == a + front && (a + b)[|a + b| - 1] == b[|b| - 1];
      assert BandAll(a, budget) + (BandAll(front, budget) + last) == BandAll(a, budget) + BandAll(front, budget) + last;
    }
  }

  lemma BandAllOfOne(r: Rect, budget: nat)
    ensures BandAll([r], budget) == Bands(r, budget)
  {
    assert [r][..0] == [];
    assert BandAll([r], budget) == BandAll([], budget) + Bands(r, budget);
  }
}
