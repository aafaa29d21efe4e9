/** The damage detector's geometry: tiles, runs of dirty tiles, merged runs and bands. */
module Tiling {
  import opened Types
  import opened Geometry
  import opened Raster

  /** An image cut into square tiles; the last column and row may be narrower. */
  datatype Grid = Grid(width: nat, height: nat, tile: nat) {
    function Cols(): nat
      requires tile > 0
    {
      (width + tile - 1) / tile
    }

    function Rows(): nat
      requires tile > 0
    {
      (height + tile - 1) / tile
    }

    predicate Valid() { 0 < width && 0 < height && 0 < tile }
  }

  function Min(a: nat, b: nat): nat { if a < b then a else b }

  /** Tiles start..end of tile row ty, clipped to the image. */
  function Strip(g: Grid, start: nat, end: nat, ty: nat): Rect
    requires g.Valid() && start <= end && start * g.tile <= g.width && ty * g.tile <= g.height
    requires start * g.tile <= end * g.tile
  {
    Rect(start * g.tile, ty * g.tile, Min(end * g.tile, g.width) - start * g.tile,
         Min(g.tile, g.height - ty * g.tile))
  }

  // ----- pixels and tiles

  lemma FloorLess(p: nat, e: nat, ts: nat)
    requires ts > 0
    ensures p < e * ts <==> p / ts < e
  {
    var q := p / ts;
    assert p == q * ts + p % ts;
    if q < e {
      MulStep(q, e, ts);
    } else if e < q {
      MulStep(e, q, ts);
    }
  }

  lemma LastTile(w: nat, ts: nat)
    requires 0 < w && 0 < ts
    ensures (w + ts - 1) / ts == (w - 1) / ts + 1
  {
    var q, r := (w - 1) / ts, (w - 1) % ts;
    assert w - 1 == q * ts + r;
    Distribute(q, 1, ts);
    RowMajor(r, q + 1, ts);
  }

  /** Tile index t exists in a span of w pixels exactly when its first pixel does. */
  lemma TileExists(w: nat, ts: nat, t: nat)
    requires 0 < w && 0 < ts
    ensures t < (w + ts - 1) / ts <==> t * ts < w
  {
    LastTile(w, ts);
    FloorLess(w - 1, t, ts);
  }

  /** The number of tiles as the source computes it, in 32 bits. */
  function WrappedCount(w: nat, ts: nat): nat
    requires 0 < ts
  {
    (w + ts - 1) % (UINT32_MAX + 1) / ts
  }

  /** The 32-bit count is the true, nonzero one exactly when its sum does not wrap; when it
      wraps, no tile is left. */
  lemma TileCountUnlessWrapped(w: nat, ts: nat)
    requires 0 < w <= UINT32_MAX && 0 < ts
    ensures w + ts - 1 <= UINT32_MAX ==> WrappedCount(w, ts) == (w + ts - 1) / ts && 0 < WrappedCount(w, ts)
    ensures w + ts - 1 > UINT32_MAX ==> WrappedCount(w, ts) == 0
  {
    var m := UINT32_MAX + 1;
    if w + ts - 1 < m {
      QuotientAtLeast(w + ts - 1, ts, 1);
    } else {
      var r := (w + ts - 1) % m;
      if ts < m {
        RowMajor(w + ts - 1 - m, 1, m);
      }
      RowMajor(r, 0, ts);
    }
  }

  lemma PixelTile(g: Grid, px: nat, py: nat)
    requires g.Valid() && px < g.width && py < g.height
    ensures px / g.tile < g.Cols() && py / g.tile < g.Rows()
  {
    TileExists(g.width, g.tile, px / g.tile);
    TileExists(g.height, g.tile, py / g.tile);
    assert px / g.tile * g.tile <= px;
    assert py / g.tile * g.tile <= py;
  }

  lemma StripWellFormed(g: Grid, start: nat, end: nat, ty: nat)
    requires g.Valid() && start < end <= g.Cols() && ty < g.Rows()
    ensures start * g.tile < end * g.tile && start * g.tile < g.width && ty * g.tile < g.height
    ensures InBounds(Strip(g, start, end, ty), g.width, g.height)
  {
    TileExists(g.width, g.tile, start);
    TileExists(g.height, g.tile, ty);
    MulStep(start, end, g.tile);
  }

  lemma StripPixels(g: Grid, start: nat, end: nat, ty: nat, px: nat, py: nat)
    requires g.Valid() && start < end <= g.Cols() && ty < g.Rows()
    requires px < g.width && py < g.height
    ensures start * g.tile < end * g.tile && start * g.tile < g.width && ty * g.tile < g.height
    ensures Inside(Strip(g, start, end, ty), px, py) <==> start <= px / g.tile < end && py / g.tile == ty
  {
    StripWellFormed(g, start, end, ty);
    FloorLess(px, start, g.tile);
    FloorLess(px, end, g.tile);
    FloorLess(py, ty, g.tile);
    FloorLess(py, ty + 1, g.tile);
    Distribute(ty, 1, g.tile);
  }

  // ----- runs of dirty tiles

  ghost predicate DirtyMap(d: seq<bool>, g: Grid) {
    g.Valid() && |d| == g.Cols() * g.Rows()
  }

  function At(d: seq<bool>, g: Grid, tx: nat, ty: nat): bool
    requires g.Valid() && |d| == g.Cols() * g.Rows() && tx < g.Cols() && ty < g.Rows()
  {
    RowMajorBound(tx, ty, g.Cols(), g.Rows());
    d[ty * g.Cols() + tx]
  }

  /** The first clean tile of row ty at or after tx. */
  function RunEnd(d: seq<bool>, g: Grid, tx: nat, ty: nat): (e: nat)
    requires g.Valid() && |d| == g.Cols() * g.Rows() && tx <= g.Cols() && ty < g.Rows()
    ensures tx <= e <= g.Cols()
    ensures forall t :: tx <= t < e ==> At(d, g, t, ty)
    ensures e < g.Cols() ==> !At(d, g, e, ty)
    decreases g.Cols() - tx
  {
    if tx < g.Cols() && At(d, g, tx, ty) then RunEnd(d, g, tx + 1, ty) else tx
  }

  /** The maximal dirty runs of row ty from tile tx on. */
  function RowRuns(d: seq<bool>, g: Grid, tx: nat, ty: nat): seq<Rect>
    requires g.Valid() && |d| == g.Cols() * g.Rows() && tx <= g.Cols() && ty < g.Rows()
    decreases g.Cols() - tx
  {
    if tx == g.Cols() then []
    else if !At(d, g, tx, ty) then RowRuns(d, g, tx + 1, ty)
    else
      var e := RunEnd(d, g, tx + 1, ty);
      StripWellFormed(g, tx, e, ty);
      [Strip(g, tx, e, ty)] + RowRuns(d, g, e, ty)
  }

  function RunsFrom(d: seq<bool>, g: Grid, ty: nat): seq<Rect>
    requires g.Valid() && |d| == g.Cols() * g.Rows() && ty <= g.Rows()
    decreases g.Rows() - ty
  {
    if ty == g.Rows() then [] else RowRuns(d, g, 0, ty) + RunsFrom(d, g, ty + 1)
  }

  /** Folds each run into the one before it when it continues it straight down. */
  function MergeInto(merged: seq<Rect>, runs: seq<Rect>): seq<Rect>
    decreases |runs|
  {
    if runs == [] then merged
    else MergeInto(MergeOne(merged, runs[0]), runs[1..])
  }

  predicate Continues(last: Rect, r: Rect) {
    last.x == r.x && last.w == r.w && last.y + last.h == r.y
  }

  function MergeOne(merged: seq<Rect>, r: Rect): (out: seq<Rect>)
    ensures out != []
  {
    var n := |merged|;
    if n > 0 && Continues(merged[n - 1], r) then merged[n - 1 := merged[n - 1].(h := merged[n - 1].h + r.h)]
    else merged + [r]
  }

  /** The damage rectangles of a dirty map. */
  function DamageRects(d: seq<bool>, g: Grid): seq<Rect>
    requires g.Valid() && |d| == g.Cols() * g.Rows()
  {
    MergeInto([], RunsFrom(d, g, 0))
  }

  // ----- the damage rectangles cover exactly the dirty tiles, each pixel once

  ghost predicate IsDirty(d: seq<bool>, g: Grid, px: nat, py: nat)
    requires g.Valid() && |d| == g.Cols() * g.Rows() && px < g.width && py < g.height
  {
    PixelTile(g, px, py);
    At(d, g, px / g.tile, py / g.tile)
  }

  lemma {:induction false} RowRunsPixels(d: seq<bool>, g: Grid, tx: nat, ty: nat, px: nat, py: nat)
    requires DirtyMap(d, g) && tx <= g.Cols() && ty < g.Rows()
    requires px < g.width && py < g.height
    ensures Covers(RowRuns(d, g, tx, ty), px, py)
            <==> py / g.tile == ty && tx <= px / g.tile && IsDirty(d, g, px, py)
    decreases g.Cols() - tx
  {
    PixelTile(g, px, py);
    if tx < g.Cols() {
      if !At(d, g, tx, ty) {
        RowRunsPixels(d, g, tx + 1, ty, px, py);
      } else {
        var e := RunEnd(d, g, tx + 1, ty);
        StripPixels(g, tx, e, ty, px, py);
        CoversOne(Strip(g, tx, e, ty), px, py);
        CoversConcat([Strip(g, tx, e, ty)], RowRuns(d, g, e, ty), px, py);
        RowRunsPixels(d, g, e, ty, px, py);
      }
    }
  }

  lemma CoveredIsInside(rs: seq<Rect>, width: nat, height: nat, px: nat, py: nat)
    requires AllInBounds(rs, width, height) && Covers(rs, px, py)
    ensures px < width && py < height
  {
    var k :| 0 <= k < |rs| && Inside(rs[k], px, py);
    assert InBounds(rs[k], width, height);
  }

  lemma {:induction false} RowRunsDisjoint(d: seq<bool>, g: Grid, tx: nat, ty: nat)
    requires DirtyMap(d, g) && tx <= g.Cols() && ty < g.Rows()
    ensures Disjoint(RowRuns(d, g, tx, ty)) && AllInBounds(RowRuns(d, g, tx, ty), g.width, g.height)
    decreases g.Cols() - tx
  {
    if tx < g.Cols() {
      if !At(d, g, tx, ty) {
        RowRunsDisjoint(d, g, tx + 1, ty);
      } else {
        var e := RunEnd(d, g, tx + 1, ty);
        RowRunsDisjoint(d, g, e, ty);
        StripThenRuns(d, g, tx, e, ty);
      }
    }
  }

  lemma StripThenRuns(d: seq<bool>, g: Grid, tx: nat, e: nat, ty: nat)
    requires DirtyMap(d, g) && tx < e <= g.Cols() && ty < g.Rows()
    requires Disjoint(RowRuns(d, g, e, ty)) && AllInBounds(RowRuns(d, g, e, ty), g.width, g.height)
    ensures tx * g.tile < e * g.tile && tx * g.tile < g.width && ty * g.tile < g.height
    ensures Disjoint([Strip(g, tx, e, ty)] + RowRuns(d, g, e, ty))
    ensures AllInBounds([Strip(g, tx, e, ty)] + RowRuns(d, g, e, ty), g.width, g.height)
  {
    StripWellFormed(g, tx, e, ty);
    var first, rest := Strip(g, tx, e, ty), RowRuns(d, g, e, ty);
    hide RowRuns, Strip, At, IsDirty, Covers;
    forall px: nat, py: nat | Covers(rest, px, py)
      ensures !Covers([first], px, py)
    {
      CoveredIsInside(rest, g.width, g.height, px, py);
      CoversOne(first, px, py);
      StripPixels(g, tx, e, ty, px, py);
      RowRunsPixels(d, g, e, ty, px, py);
    }
    DisjointConcat([first], rest, g.width, g.height);
  }

  lemma {:induction false} RunsPixels(d: seq<bool>, g: Grid, ty: nat, px: nat, py: nat)
    requires DirtyMap(d, g) && ty <= g.Rows() && px < g.width && py < g.height
    ensures Covers(RunsFrom(d, g, ty), px, py) <==> ty <= py / g.tile && IsDirty(d, g, px, py)
    decreases g.Rows() - ty
  {
    hide RowRuns, At, IsDirty;
    PixelTile(g, px, py);
    if ty < g.Rows() {
      hide Covers;
      RunsPixels(d, g, ty + 1, px, py);
      RowRunsPixels(d, g, 0, ty, px, py);
      CoversConcat(RowRuns(d, g, 0, ty), RunsFrom(d, g, ty + 1), px, py);
    }
  }

  lemma {:induction false} RunsDisjoint(d: seq<bool>, g: Grid, ty: nat)
    requires DirtyMap(d, g) && ty <= g.Rows()
    ensures Disjoint(RunsFrom(d, g, ty)) && AllInBounds(RunsFrom(d, g, ty), g.width, g.height)
    decreases g.Rows() - ty
  {
    if ty < g.Rows() {
      var row, rest := RowRuns(d, g, 0, ty), RunsFrom(d, g, ty + 1);
      RunsDisjoint(d, g, ty + 1);
      RowRunsDisjoint(d, g, 0, ty);
      forall px: nat, py: nat | Covers(rest, px, py)
        ensures !Covers(row, px, py)
      {
        CoveredIsInside(rest, g.width, g.height, px, py);
        RowRunsPixels(d, g, 0, ty, px, py);
        RunsPixels(d, g, ty + 1, px, py);
      }
      DisjointConcat(row, rest, g.width, g.height);
    }
  }

  lemma MergeOneKeeps(merged: seq<Rect>, r: Rect, rest: seq<Rect>, width: nat, height: nat)
    requires Disjoint(merged + [r] + rest) && AllInBounds(merged + [r] + rest, width, height)
    ensures Disjoint(MergeOne(merged, r) + rest) && AllInBounds(MergeOne(merged, r) + rest, width, height)
    ensures forall px: nat, py: nat :: Covers(MergeOne(merged, r) + rest, px, py)
                                       <==> Covers(merged + [r] + rest, px, py)
  {
    var n := |merged|;
    if n > 0 && Continues(merged[n - 1], r) {
      var old', new' := merged + [r] + rest, MergeOne(merged, r) + rest;
      MergedList(merged, r, rest, old', new');
      MergedDisjoint(old', new', n, width, height);
      forall px: nat, py: nat
        ensures Covers(new', px, py) <==> Covers(old', px, py)
      {
        MergedCovers(old', new', n, px, py);
      }
    } else {
      assert MergeOne(merged, r) + rest == merged + [r] + rest;
    }
  }

  /** `after` is `before` with rectangles n-1 and n joined. */
  ghost predicate Joined(before: seq<Rect>, after: seq<Rect>, n: nat) {
    && 0 < n < |before| && |after| == |before| - 1
    && Continues(before[n - 1], before[n])
    && after[n - 1] == before[n - 1].(h := before[n - 1].h + before[n].h)
    && (forall k :: 0 <= k < n - 1 ==> after[k] == before[k])
    && (forall k :: n <= k < |after| ==> after[k] == before[k + 1])
  }

  lemma MergedList(merged: seq<Rect>, r: Rect, rest: seq<Rect>, before: seq<Rect>, after: seq<Rect>)
    requires merged != [] && Continues(merged[|merged| - 1], r)
    requires before == merged + [r] + rest && after == MergeOne(merged, r) + rest
    ensures Joined(before, after, |merged|)
  {
  }

  lemma MergedDisjoint(before: seq<Rect>, after: seq<Rect>, n: nat, width: nat, height: nat)
    requires Joined(before, after, n) && Disjoint(before) && AllInBounds(before, width, height)
    ensures Disjoint(after) && AllInBounds(after, width, height)
  {
    assert InBounds(before[n - 1], width, height) && InBounds(before[n], width, height);
    forall k | 0 <= k < |after|
      ensures InBounds(after[k], width, height)
    {
      assert InBounds(before[if k < n then k else k + 1], width, height);
    }
    forall j, k | 0 <= j < k < |after|
      ensures !Overlaps(after[j], after[k])
    {
      var j', k' := if j < n then j else j + 1, if k < n then k else k + 1;
      assert !Overlaps(before[j'], before[k']);
      if j == n - 1 {
        assert !Overlaps(before[n], before[k']);
      } else if k == n - 1 {
        assert !Overlaps(before[j'], before[n]);
      }
    }
  }

  lemma MergedCovers(before: seq<Rect>, after: seq<Rect>, n: nat, px: nat, py: nat)
    requires Joined(before, after, n)
    ensures Covers(after, px, py) <==> Covers(before, px, py)
  {
    if Covers(after, px, py) {
      var k :| 0 <= k < |after| && Inside(after[k], px, py);
      assert Inside(before[if k < n then k else k + 1], px, py) || Inside(before[n], px, py);
    }
    if Covers(before, px, py) {
      var k :| 0 <= k < |before| && Inside(before[k], px, py);
      assert Inside(after[if k < n then k else k - 1], px, py);
    }
  }

  lemma {:induction false} MergeKeeps(merged: seq<Rect>, runs: seq<Rect>, width: nat, height: nat)
    requires Disjoint(merged + runs) && AllInBounds(merged + runs, width, height)
    ensures Disjoint(MergeInto(merged, runs)) && AllInBounds(MergeInto(merged, runs), width, height)
    ensures forall px: nat, py: nat :: Covers(MergeInto(merged, runs), px, py) <==> Covers(merged + runs, px, py)
    decreases |runs|
  {
    if runs == [] {
      assert merged + runs == merged;
    } else {
      assert merged + runs == merged + [runs[0]] + runs[1..];
      MergeOneKeeps(merged, runs[0], runs[1..], width, height);
      MergeKeeps(MergeOne(merged, runs[0]), runs[1..], width, height);
    }
  }

  /** Detector geometry: the damage rectangles are disjoint, inside the image, and
      cover a pixel exactly when its tile is dirty. */
  lemma DamageRectsExact(d: seq<bool>, g: Grid)
    requires DirtyMap(d, g)
    ensures Disjoint(DamageRects(d, g)) && AllInBounds(DamageRects(d, g), g.width, g.height)
    ensures forall px: nat, py: nat :: px < g.width && py < g.height ==>
              (Covers(DamageRects(d, g), px, py) <==> IsDirty(d, g, px, py))
  {
    var runs := RunsFrom(d, g, 0);
    RunsDisjoint(d, g, 0);
    assert [] + runs == runs;
    MergeKeeps([], runs, g.width, g.height);
    forall px: nat, py: nat | px < g.width && py < g.height
      ensures Covers(DamageRects(d, g), px, py) <==> IsDirty(d, g, px, py)
    {
      RunsPixels(d, g, 0, px, py);
    }
  }

  // ----- counting dirty pixels tile by tile

  /** Tile (tx, ty), clipped to the image. */
  function ClippedTile(g: Grid, tx: nat, ty: nat): (r: Rect)
    requires g.Valid() && tx < g.Cols() && ty < g.Rows()
    ensures InBounds(r, g.width, g.height)
  {
    StripWellFormed(g, tx, tx + 1, ty);
    var x, y := tx * g.tile, ty * g.tile;
    Rect(x, y, if x + g.tile > g.width then g.width - x else g.tile,
         if y + g.tile > g.height then g.height - y else g.tile)
  }

  lemma TileIndex(i: nat, cols: nat, rows: nat)
    requires i < cols * rows
    ensures 0 < cols && i % cols < cols && i / cols < rows
  {
    FloorLess(i, rows, cols);
  }

  /** Tile i in row-major order. */
  function TileRect(g: Grid, i: nat): (r: Rect)
    requires g.Valid() && i < g.Cols() * g.Rows()
    ensures InBounds(r, g.width, g.height)
  {
    TileIndex(i, g.Cols(), g.Rows());
    ClippedTile(g, i % g.Cols(), i / g.Cols())
  }

  lemma TilePixels(g: Grid, i: nat, px: nat, py: nat)
    requires g.Valid() && i < g.Cols() * g.Rows() && px < g.width && py < g.height
    ensures Inside(TileRect(g, i), px, py) <==> px / g.tile == i % g.Cols() && py / g.tile == i / g.Cols()
  {
    TileIndex(i, g.Cols(), g.Rows());
    var tx, ty := i % g.Cols(), i / g.Cols();
    StripPixels(g, tx, tx + 1, ty, px, py);
    Distribute(tx, 1, g.tile);
  }

  function Place(x: nat, y: nat, cols: nat): nat { y * cols + x }

  function Across(g: Grid, px: nat): nat
    requires g.Valid()
  {
    px / g.tile
  }

  function Down(g: Grid, py: nat): nat
    requires g.Valid()
  {
    py / g.tile
  }

  /** The tile a pixel is in, in row-major order. */
  function TileAt(g: Grid, px: nat, py: nat): nat
    requires g.Valid()
  {
    Place(Across(g, px), Down(g, py), g.Cols())
  }

  lemma TileAtExists(g: Grid, px: nat, py: nat)
    requires g.Valid() && px < g.width && py < g.height
    ensures TileAt(g, px, py) < g.Cols() * g.Rows()
  {
    PixelTile(g, px, py);
    RowMajorBound(px / g.tile, py / g.tile, g.Cols(), g.Rows());
  }

  /** Tile i holds a pixel exactly when the pixel is in tile i. */
  lemma TileHolds(g: Grid, i: nat, px: nat, py: nat)
    requires g.Valid() && i < g.Cols() * g.Rows() && px < g.width && py < g.height
    ensures Inside(TileRect(g, i), px, py) <==> TileAt(g, px, py) == i
  {
    hide TileRect, Inside, Grid.Cols, Grid.Rows, Place, Across, Down;
    InTile(g, i, px, py);
    SameIndex(Across(g, px), Down(g, py), i, g.Cols());
  }

  predicate IsSplit(i: nat, x: nat, y: nat, cols: nat)
    requires 0 < cols
  {
    x == i % cols && y == i / cols
  }

  lemma InTile(g: Grid, i: nat, px: nat, py: nat)
    requires g.Valid() && i < g.Cols() * g.Rows() && px < g.width && py < g.height
    ensures Across(g, px) < g.Cols()
    ensures Inside(TileRect(g, i), px, py) <==> IsSplit(i, Across(g, px), Down(g, py), g.Cols())
  {
    hide TileRect, Inside, Grid.Cols, Grid.Rows;
    TilePixels(g, i, px, py);
    PixelTile(g, px, py);
  }

  lemma SameIndex(x: nat, y: nat, i: nat, cols: nat)
    requires x < cols
    ensures IsSplit(i, x, y, cols) <==> Place(x, y, cols) == i
  {
    SplitIndex(i, cols);
    RowMajor(x, y, cols);
  }

  lemma DirtyAt(d: seq<bool>, g: Grid, px: nat, py: nat)
    requires DirtyMap(d, g) && px < g.width && py < g.height
    ensures TileAt(g, px, py) < |d| && (IsDirty(d, g, px, py) <==> d[TileAt(g, px, py)])
  {
    TileAtExists(g, px, py);
  }

  /** The dirty tiles among the first n. */
  function DirtyTiles(d: seq<bool>, g: Grid, n: nat): seq<Rect>
    requires g.Valid() && |d| == g.Cols() * g.Rows() && n <= |d|
  {
    if n == 0 then []
    else DirtyTiles(d, g, n - 1) + if d[n - 1] then [TileRect(g, n - 1)] else []
  }

  lemma {:induction false} DirtyTilesPixels(d: seq<bool>, g: Grid, n: nat, px: nat, py: nat)
    requires DirtyMap(d, g) && n <= |d| && px < g.width && py < g.height
    ensures Covers(DirtyTiles(d, g, n), px, py) <==> TileAt(g, px, py) < n && IsDirty(d, g, px, py)
  {
    hide Covers, TileAt, TileRect, IsDirty, Grid.Cols, Grid.Rows;
    DirtyAt(d, g, px, py);
    if n == 0 {
      NothingCovered(px, py);
    } else {
      DirtyTilesPixels(d, g, n - 1, px, py);
      TileHolds(g, n - 1, px, py);
      if d[n - 1] {
        CoversOne(TileRect(g, n - 1), px, py);
        CoversConcat(DirtyTiles(d, g, n - 1), [TileRect(g, n - 1)], px, py);
      } else {
        assert DirtyTiles(d, g, n) == DirtyTiles(d, g, n - 1);
      }
    }
  }

  lemma NothingCovered(px: nat, py: nat)
    ensures !Covers([], px, py)
  {
  }

  lemma {:induction false} DirtyTilesDisjoint(d: seq<bool>, g: Grid, n: nat)
    requires DirtyMap(d, g) && n <= |d|
    ensures Disjoint(DirtyTiles(d, g, n)) && AllInBounds(DirtyTiles(d, g, n), g.width, g.height)
  {
    if n > 0 {
      DirtyTilesDisjoint(d, g, n - 1);
      if d[n - 1] {
        NextTileDisjoint(d, g, n - 1);
      } else {
        assert DirtyTiles(d, g, n) == DirtyTiles(d, g, n - 1);
      }
    }
  }

  lemma NextTileDisjoint(d: seq<bool>, g: Grid, i: nat)
    requires DirtyMap(d, g) && i < |d|
    requires Disjoint(DirtyTiles(d, g, i)) && AllInBounds(DirtyTiles(d, g, i), g.width, g.height)
    ensures Disjoint(DirtyTiles(d, g, i) + [TileRect(g, i)])
    ensures AllInBounds(DirtyTiles(d, g, i) + [TileRect(g, i)], g.width, g.height)
  {
    var tiles, next := DirtyTiles(d, g, i), TileRect(g, i);
    hide DirtyTiles, TileRect, Covers;
    forall px: nat, py: nat | Covers(tiles, px, py)
      ensures !Covers([next], px, py)
    {
      CoveredIsInside(tiles, g.width, g.height, px, py);
      TileNotYetPlaced(d, g, i, px, py);
      CoversOne(next, px, py);
    }
    DisjointConcat(tiles, [next], g.width, g.height);
  }

  lemma SplitIndex(i: nat, cols: nat)
    requires 0 < cols
    ensures i == i / cols * cols + i % cols
  {
  }

  lemma TileNotYetPlaced(d: seq<bool>, g: Grid, i: nat, px: nat, py: nat)
    requires DirtyMap(d, g) && i < |d| && px < g.width && py < g.height
    requires Covers(DirtyTiles(d, g, i), px, py)
    ensures !Inside(TileRect(g, i), px, py)
  {
    hide DirtyTiles, TileRect, Covers, TileAt, IsDirty, Grid.Cols, Grid.Rows;
    DirtyTilesPixels(d, g, i, px, py);
    TileHolds(g, i, px, py);
  }

  lemma AllDirtyTilesPixels(d: seq<bool>, g: Grid, px: nat, py: nat)
    requires DirtyMap(d, g) && px < g.width && py < g.height
    ensures Covers(DirtyTiles(d, g, |d|), px, py) <==> IsDirty(d, g, px, py)
  {
    hide DirtyTiles, Covers, IsDirty, TileAt, Grid.Cols, Grid.Rows;
    DirtyTilesPixels(d, g, |d|, px, py);
    TileAtExists(g, px, py);
  }

  /** The dirty-pixel count kept while scanning is the area of the damage rectangles. */
  lemma DamageAreaIsDirtyPixels(d: seq<bool>, g: Grid)
    requires DirtyMap(d, g)
    ensures TotalArea(DamageRects(d, g)) == TotalArea(DirtyTiles(d, g, |d|))
  {
    DamageRectsExact(d, g);
    DirtyTilesDisjoint(d, g, |d|);
    var damage, tiles := DamageRects(d, g), DirtyTiles(d, g, |d|);
    hide DamageRects, DirtyTiles, Covers, IsDirty, Disjoint;
    forall px: nat, py: nat
      ensures Covers(damage, px, py) <==> Covers(tiles, px, py)
    {
      if px < g.width && py < g.height {
        AllDirtyTilesPixels(d, g, px, py);
      } else if Covers(damage, px, py) {
        CoveredIsInside(damage, g.width, g.height, px, py);
      } else if Covers(tiles, px, py) {
        CoveredIsInside(tiles, g.width, g.height, px, py);
      }
    }
    SamePixelsSameArea(damage, tiles);
  }

  // ----- horizontal bands

  const UINT32_MAX: nat := 0xFFFF_FFFF

  /** The most rows of a width-wide rectangle that fit the budget, and at least one. */
  function BandRows(width: nat, budget: nat): (rows: nat)
    ensures 1 <= rows
  {
    if width == 0 then 1
    else
      var rows := budget / (width * 4);
      if rows < 1 then 1 else if rows > UINT32_MAX then UINT32_MAX else rows
  }

  function BandsFrom(r: Rect, y: nat, rows: nat): seq<Rect>
    requires rows > 0 && y <= r.h
    decreases r.h - y
  {
    if y == r.h then []
    else
      var h := Min(rows, r.h - y);
      [Rect(r.x, r.y + y, r.w, h)] + BandsFrom(r, y + h, rows)
  }

  /** A rectangle within budget stays whole; a larger one is cut into bands. */
  function Bands(r: Rect, budget: nat): seq<Rect> {
    var rows := BandRows(r.w, budget);
    if rows >= r.h then [r] else BandsFrom(r, 0, rows)
  }

  function BandAll(rs: seq<Rect>, budget: nat): seq<Rect> {
    if rs == [] then [] else BandAll(rs[..|rs| - 1], budget) + Bands(rs[|rs| - 1], budget)
  }

  lemma {:induction false} BandsFromPixels(r: Rect, y: nat, rows: nat, px: nat, py: nat)
    requires rows > 0 && y <= r.h
    ensures Covers(BandsFrom(r, y, rows), px, py) <==> Inside(r, px, py) && r.y + y <= py
    decreases r.h - y
  {
    if y < r.h {
      var h := Min(rows, r.h - y);
      var first := Rect(r.x, r.y + y, r.w, h);
      BandsFromPixels(r, y + h, rows, px, py);
      CoversOne(first, px, py);
      CoversConcat([first], BandsFrom(r, y + h, rows), px, py);
    }
  }

  lemma {:induction false} BandsFromDisjoint(r: Rect, y: nat, rows: nat, width: nat, height: nat)
    requires rows > 0 && y <= r.h && InBounds(r, width, height)
    ensures Disjoint(BandsFrom(r, y, rows)) && AllInBounds(BandsFrom(r, y, rows), width, height)
    decreases r.h - y
  {
    if y < r.h {
      var h := Min(rows, r.h - y);
      var first, rest := Rect(r.x, r.y + y, r.w, h), BandsFrom(r, y + h, rows);
      BandsFromDisjoint(r, y + h, rows, width, height);
      forall px: nat, py: nat
        ensures !(Covers([first], px, py) && Covers(rest, px, py))
      {
        CoversOne(first, px, py);
        BandsFromPixels(r, y + h, rows, px, py);
      }
      DisjointConcat([first], rest, width, height);
    }
  }

  lemma BandsExact(r: Rect, budget: nat, width: nat, height: nat)
    requires InBounds(r, width, height)
    ensures Disjoint(Bands(r, budget)) && AllInBounds(Bands(r, budget), width, height) && Bands(r, budget) != []
    ensures forall px: nat, py: nat :: Covers(Bands(r, budget), px, py) <==> Inside(r, px, py)
  {
    var rows := BandRows(r.w, budget);
    if rows < r.h {
      BandsFromDisjoint(r, 0, rows, width, height);
    }
    forall px: nat, py: nat
      ensures Covers(Bands(r, budget), px, py) <==> Inside(r, px, py)
    {
      if rows < r.h {
        BandsFromPixels(r, 0, rows, px, py);
      } else {
        CoversOne(r, px, py);
      }
    }
  }

  /** Banding any damage keeps it disjoint, in bounds and over the same pixels. */
  lemma {:induction false} BandAllExact(rs: seq<Rect>, budget: nat, width: nat, height: nat)
    requires Disjoint(rs) && AllInBounds(rs, width, height)
    ensures Disjoint(BandAll(rs, budget)) && AllInBounds(BandAll(rs, budget), width, height)
    ensures forall px: nat, py: nat :: Covers(BandAll(rs, budget), px, py) <==> Covers(rs, px, py)
    ensures |rs| <= |BandAll(rs, budget)|
  {
    if rs != [] {
      var front, last := rs[..|rs| - 1], rs[|rs| - 1];
      assert InBounds(last, width, height);
      BandAllExact(front, budget, width, height);
      BandsExact(last, budget, width, height);
      BandLast(rs, front, last, budget, width, height);
    }
  }

  lemma BandLast(rs: seq<Rect>, front: seq<Rect>, last: Rect, budget: nat, width: nat, height: nat)
    requires Disjoint(rs) && rs == front + [last]
    requires Disjoint(BandAll(front, budget)) && AllInBounds(BandAll(front, budget), width, height)
    requires Disjoint(Bands(last, budget)) && AllInBounds(Bands(last, budget), width, height)
    requires forall px: nat, py: nat :: Covers(BandAll(front, budget), px, py) <==> Covers(front, px, py)
    requires forall px: nat, py: nat :: Covers(Bands(last, budget), px, py) <==> Inside(last, px, py)
    ensures var all := BandAll(front, budget) + Bands(last, budget);
            && Disjoint(all) && AllInBounds(all, width, height)
            && forall px: nat, py: nat :: Covers(all, px, py) <==> Covers(rs, px, py)
  {
    var a, b := BandAll(front, budget), Bands(last, budget);
    hide BandAll, Bands;
    forall px: nat, py: nat
      ensures !(Covers(a, px, py) && Covers(b, px, py))
      ensures Covers(a + b, px, py) <==> Covers(rs, px, py)
    {
      CoversConcat(a, b, px, py);
      CoversConcat(front, [last], px, py);
      CoversOne(last, px, py);
      if Covers(front, px, py) {
        var k :| 0 <= k < |front| && Inside(front[k], px, py);
        assert !Overlaps(rs[k], rs[|rs| - 1]);
      }
    }
    DisjointConcat(a, b, width, height);
  }
}
