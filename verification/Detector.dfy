/** The damage detector's scanning, merging and banding code. */
module Detector {
  import opened Types
  import opened Geometry
  import opened Raster
  import opened Messages
  import opened Tiling
  import opened Damage

  // ----- per-rectangle loops over rows

  lemma NextRow(image: Image, r: Rect, y: nat, n: nat, start: nat)
    requires WellSized(image) && InBounds(r, image.width, image.height) && y < r.h
    requires n == r.w * 4 && start == RowOffset(r, y, image.width)
    ensures start + n <= |image.pixels| && y * n + n == (y + 1) * n <= Area(r) * 4
    ensures Crop(image, r)[..(y + 1) * n] == Crop(image, r)[..y * n] + image.pixels[start..start + n]
  {
    hide Crop;
    CropRow(image, r, y);
    Distribute(y, 1, n);
    var c := Crop(image, r);
    assert c[..y * n + n] == c[..y * n] + c[y * n..y * n + n];
  }

  lemma AllRows(r: Rect, n: nat)
    requires n == r.w * 4
    ensures r.h * n == Area(r) * 4
  {
  }

  /** Feeds the tile to the hash row by row. */
  method HashRect(image: Image, r: Rect, hash: seq<byte> -> nat) returns (h: nat)
    requires WellSized(image) && InBounds(r, image.width, image.height)
    ensures h == hash(Crop(image, r))
  {
    hide Crop, RowOffset, WellSized;
    var n := r.w * 4;
    var written: seq<byte> := [];
    for y := 0 to r.h
      invariant y * n <= Area(r) * 4 && written == Crop(image, r)[..y * n]
    {
      var start := RowOffset(r, y, image.width);
      NextRow(image, r, y, n, start);
      written := written + image.pixels[start..start + n];
    }
    AllRows(r, n);
    assert written == Crop(image, r);
    return hash(written);
  }

  method EqualRect(a: Image, b: Image, r: Rect) returns (same: bool)
    requires WellSized(a) && WellSized(b) && a.width == b.width && a.height == b.height
    requires InBounds(r, a.width, a.height)
    ensures same == (Crop(a, r) == Crop(b, r))
  {
    hide Crop, RowOffset, WellSized;
    var n := r.w * 4;
    for y := 0 to r.h
      invariant y * n <= Area(r) * 4 && Crop(a, r)[..y * n] == Crop(b, r)[..y * n]
    {
      var start := RowOffset(r, y, a.width);
      NextRow(a, r, y, n, start);
      NextRow(b, r, y, n, start);
      if a.pixels[start..start + n] != b.pixels[start..start + n] {
        DifferentRow(Crop(a, r)[..y * n], a.pixels[start..start + n], b.pixels[start..start + n]);
        return false;
      }
    }
    AllRows(r, n);
    return true;
  }

  lemma DifferentRow(prefix: seq<byte>, u: seq<byte>, v: seq<byte>)
    requires u != v
    ensures prefix + u != prefix + v
  {
    assert (prefix + u)[|prefix|..] == u;
    assert (prefix + v)[|prefix|..] == v;
  }

  /** Packs the rectangle's rows and keeps the compressed form when it is smaller. */
  method EncodeRectangle(image: Image, r: Rect, deflate: seq<byte> -> seq<byte>) returns (out: Rectangle)
    requires WellSized(image) && InBounds(r, image.width, image.height)
    ensures out == Encode(image, r, deflate)
  {
    hide Crop;
    var raw := PackRows(image, r);
    var compressed := deflate(raw[..]);
    if |compressed| < raw.Length {
      return Rectangle(r, ZLIB_BGRA, compressed);
    }
    return Rectangle(r, RAW_BGRA, raw[..]);
  }

  method PackRows(image: Image, r: Rect) returns (raw: array<byte>)
    requires WellSized(image) && InBounds(r, image.width, image.height)
    ensures raw[..] == Crop(image, r)
  {
    hide Crop, RowOffset, WellSized, Area;
    var n := r.w * 4;
    raw := new byte[Area(r) * 4];
    for y := 0 to r.h
      invariant y * n <= raw.Length && raw[..y * n] == Crop(image, r)[..y * n]
    {
      var start := RowOffset(r, y, image.width);
      NextRow(image, r, y, n, start);
      CopyBytes(raw, y * n, image.pixels[start..start + n]);
    }
    AllRows(r, n);
    assert raw[..] == raw[..r.h * n];
  }

  // ----- runs and merging

  lemma RowRunsStep(d: seq<bool>, g: Grid, tx: nat, ty: nat)
    requires DirtyMap(d, g) && tx < g.Cols() && ty < g.Rows()
    ensures !At(d, g, tx, ty) ==> RowRuns(d, g, tx, ty) == RowRuns(d, g, tx + 1, ty)
    ensures At(d, g, tx, ty) ==>
              var e := RunEnd(d, g, tx, ty);
              && tx < e
              && tx * g.tile < e * g.tile && tx * g.tile < g.width && ty * g.tile < g.height
              && RowRuns(d, g, tx, ty) == [Strip(g, tx, e, ty)] + RowRuns(d, g, e, ty)
  {
    if At(d, g, tx, ty) {
      StripWellFormed(g, tx, RunEnd(d, g, tx, ty), ty);
    }
  }

  /** Coalesces each row's adjacent dirty tiles into runs. */
  method CollectRuns(d: seq<bool>, g: Grid) returns (runs: seq<Rect>)
    requires g.Valid() && |d| == g.Cols() * g.Rows()
    ensures runs == RunsFrom(d, g, 0)
  {
    hide RowRuns;
    var cols, rows, ts := g.Cols(), g.Rows(), g.tile;
    runs := [];
    for ty := 0 to rows
      invariant runs + RunsFrom(d, g, ty) == RunsFrom(d, g, 0)
    {
      var row := CollectRow(d, g, ty);
      assert runs + (RowRuns(d, g, 0, ty) + RunsFrom(d, g, ty + 1)) == runs + row + RunsFrom(d, g, ty + 1);
      runs := runs + row;
    }
  }

  method CollectRow(d: seq<bool>, g: Grid, ty: nat) returns (row: seq<Rect>)
    requires g.Valid() && |d| == g.Cols() * g.Rows() && ty < g.Rows()
    ensures row == RowRuns(d, g, 0, ty)
  {
    hide RowRuns, Strip, RunEnd;
    var cols, ts := g.Cols(), g.tile;
    row := [];
    var tx := 0;
    while tx < cols
      invariant tx <= cols && row + RowRuns(d, g, tx, ty) == RowRuns(d, g, 0, ty)
      decreases cols - tx
    {
      RowRunsStep(d, g, tx, ty);
      if !At(d, g, tx, ty) {
        tx := tx + 1;
      } else {
        var start := tx;
        tx := ScanRun(d, g, start, ty);
        var r := RunRect(g, start, tx, ty);
        assert row + ([r] + RowRuns(d, g, tx, ty)) == row + [r] + RowRuns(d, g, tx, ty);
        row := row + [r];
      }
    }
    RowRunsEmpty(d, g, ty);
  }

  lemma RowRunsEmpty(d: seq<bool>, g: Grid, ty: nat)
    requires DirtyMap(d, g) && ty < g.Rows()
    ensures RowRuns(d, g, g.Cols(), ty) == []
  {
  }

  method ScanRun(d: seq<bool>, g: Grid, start: nat, ty: nat) returns (tx: nat)
    requires g.Valid() && |d| == g.Cols() * g.Rows() && start < g.Cols() && ty < g.Rows()
    ensures tx == RunEnd(d, g, start, ty)
  {
    tx := start;
    while tx < g.Cols() && At(d, g, tx, ty)
      invariant start <= tx <= g.Cols() && RunEnd(d, g, tx, ty) == RunEnd(d, g, start, ty)
      decreases g.Cols() - tx
    {
      tx := tx + 1;
    }
  }

  method RunRect(g: Grid, start: nat, end: nat, ty: nat) returns (r: Rect)
    requires g.Valid() && start < end <= g.Cols() && ty < g.Rows()
    requires start * g.tile < end * g.tile && start * g.tile < g.width && ty * g.tile < g.height
    ensures r == Strip(g, start, end, ty)
  {
    var x, right, y, h := start * g.tile, end * g.tile, ty * g.tile, g.tile;
    if right > g.width {
      right := g.width;
    }
    if y + h > g.height {
      h := g.height - y;
    }
    r := Rect(x, y, right - x, h);
  }

  /** Stacks vertically adjacent runs of the same columns. */
  method MergeRuns(runs: seq<Rect>) returns (merged: seq<Rect>)
    ensures merged == MergeInto([], runs)
  {
    merged := [];
    for i := 0 to |runs|
      invariant MergeInto(merged, runs[i..]) == MergeInto([], runs)
    {
      var r := runs[i];
      assert runs[i..][0] == r && runs[i..][1..] == runs[i + 1..];
      var n := |merged|;
      if n > 0 && merged[n - 1].x == r.x && merged[n - 1].w == r.w && merged[n - 1].y + merged[n - 1].h == r.y {
        merged := merged[n - 1 := merged[n - 1].(h := merged[n - 1].h + r.h)];
      } else {
        merged := merged + [r];
      }
    }
  }

  // ----- banding and encoding

  lemma EncodeAllConcat(image: Image, a: seq<Rect>, b: seq<Rect>, deflate: seq<byte> -> seq<byte>)
    requires WellSized(image) && AllInBounds(a + b, image.width, image.height)
    ensures AllInBounds(a, image.width, image.height) && AllInBounds(b, image.width, image.height)
    ensures EncodeAll(image, a + b, deflate) == EncodeAll(image, a, deflate) + EncodeAll(image, b, deflate)
  {
    assert forall k :: 0 <= k < |a| ==> a[k] == (a + b)[k];
    assert forall k :: 0 <= k < |b| ==> b[k] == (a + b)[|a| + k];
  }

  lemma EncodeAllEmpty(image: Image, deflate: seq<byte> -> seq<byte>)
    requires WellSized(image)
    ensures EncodeAll(image, [], deflate) == []
  {
  }

  lemma EncodeAllSnoc(image: Image, a: seq<Rect>, r: Rect, deflate: seq<byte> -> seq<byte>)
    requires WellSized(image) && AllInBounds(a, image.width, image.height) && InBounds(r, image.width, image.height)
    ensures AllInBounds(a + [r], image.width, image.height)
    ensures EncodeAll(image, a + [r], deflate) == EncodeAll(image, a, deflate) + [Encode(image, r, deflate)]
  {
    hide Encode, WellSized, InBounds;
    assert forall k :: 0 <= k < |a| ==> (a + [r])[k] == a[k];
  }

  method EncodeRectBanded(image: Image, r: Rect, budget: nat, deflate: seq<byte> -> seq<byte>)
    returns (out: seq<Rectangle>)
    requires WellSized(image) && InBounds(r, image.width, image.height)
    ensures AllInBounds(Bands(r, budget), image.width, image.height)
    ensures out == EncodeAll(image, Bands(r, budget), deflate)
  {
    hide Crop, Encode, Bands, BandsFrom, BandRows, WellSized, EncodeAll, InBounds, AllInBounds;
    BandsExact(r, budget, image.width, image.height);
    BandsStart(r, budget);
    EncodeAllEmpty(image, deflate);
    var rows := BandRows(r.w, budget);
    if rows >= r.h {
      var whole := EncodeRectangle(image, r, deflate);
      EncodeAllSnoc(image, [], r, deflate);
      assert [] + [r] == [r] && [] + [whole] == [whole];
      return [whole];
    }
    out := [];
    var y := 0;
    ghost var bands: seq<Rect> := [];
    while y < r.h
      invariant y <= r.h && bands + BandsFrom(r, y, rows) == Bands(r, budget)
      invariant AllInBounds(bands, image.width, image.height) && out == EncodeAll(image, bands, deflate)
      decreases r.h - y
    {
      var h := rows;
      if y + h > r.h {
        h := r.h - y;
      }
      var strip := Rect(r.x, r.y + y, r.w, h);
      StripInBounds(r, y, h, image.width, image.height);
      var band := EncodeRectangle(image, strip, deflate);
      BandsGrow(bands, r, y, rows);
      EncodeAllSnoc(image, bands, strip, deflate);
      out := out + [band];
      bands := bands + [strip];
      y := y + h;
    }
    BandsFromStep(r, r.h, rows);
    assert bands + [] == bands;
  }

  lemma StripInBounds(r: Rect, y: nat, h: nat, width: nat, height: nat)
    requires InBounds(r, width, height) && 0 < h && y + h <= r.h
    ensures InBounds(Rect(r.x, r.y + y, r.w, h), width, height)
  {
  }

  lemma BandsStart(r: Rect, budget: nat)
    ensures var rows := BandRows(r.w, budget);
            Bands(r, budget) == if rows >= r.h then [r] else [] + BandsFrom(r, 0, rows)
    ensures forall w, h :: AllInBounds([], w, h)
  {
  }

  lemma BandsGrow(bands: seq<Rect>, r: Rect, y: nat, rows: nat)
    requires rows > 0 && y < r.h
    ensures var h := Min(rows, r.h - y);
            bands + [Rect(r.x, r.y + y, r.w, h)] + BandsFrom(r, y + h, rows) == bands + BandsFrom(r, y, rows)
  {
    hide BandsFrom;
    BandsFromStep(r, y, rows);
  }

  lemma BandsFromStep(r: Rect, y: nat, rows: nat)
    requires rows > 0 && y <= r.h
    ensures y == r.h ==> BandsFrom(r, y, rows) == []
    ensures y < r.h ==> var h := Min(rows, r.h - y);
                        BandsFrom(r, y, rows) == [Rect(r.x, r.y + y, r.w, h)] + BandsFrom(r, y + h, rows)
  {
  }

  class Detector {
    const config: Config
    const codecs: Codecs
    var previous: Image
    var hashes: seq<nat>
    var generation: nat
    var sequence: nat

    function Remembered(): Memory
      reads this
    {
      Memory(previous, hashes, generation, sequence)
    }

    ghost predicate Valid()
      reads this
    {
      ConfigOk(config) && MemoryOk(Remembered(), config, codecs.hash)
    }

    constructor (config: Config, limits: Limits, codecs: Codecs)
      ensures Valid() && Remembered() == NO_MEMORY
      ensures this.config == Normalize(config, limits) && this.codecs == codecs
    {
      NormalizeIsOk(config, limits);
      this.config, this.codecs := Normalize(config, limits), codecs;
      previous, hashes, generation, sequence := Image(0, 0, []), [], 0, 0;
    }

    /** Refuses limits too small for even a one-pixel frame. */
    static method Create(config: Config, limits: Limits, codecs: Codecs) returns (r: Result<Detector, Error>)
      ensures r.Ok? <==> Clamp(limits.maxPixelPayload, MAX_PIXEL_PAYLOAD_HARD) >= FRAME_WIRE_FLOOR
      ensures r.Ok? ==> fresh(r.value) && r.value.Valid() && r.value.Remembered() == NO_MEMORY
                        && r.value.config == Normalize(config, limits) && r.value.codecs == codecs
      ensures r.Err? ==> r.error == PayloadBudget
    {
      if Clamp(limits.maxPixelPayload, MAX_PIXEL_PAYLOAD_HARD) < FRAME_WIRE_FLOOR {
        return Err(PayloadBudget);
      }
      var d := new Detector(config, limits, codecs);
      return Ok(d);
    }

    /** One tile: its hash, and whether its bytes have to be sent. A tile whose hash is
        unchanged is not compared. */
    method ScanTile(image: Image, i: nat, r: Rect) returns (h: nat, dirty: bool)
      requires ConfigOk(config) && ValidImage(image) && ValidImage(previous)
      requires image.width == previous.width && image.height == previous.height
      requires i < TileCount(image, config.tileSize) && r == TileRect(GridOf(image, config.tileSize), i)
      ensures h == Hashes(image, config.tileSize, codecs.hash)[i]
      ensures dirty == Dirty(image, Remembered(), config.tileSize, codecs.hash)[i]
    {
      hide Crop, TileRect, Hashes, Dirty;
      h := HashRect(image, r, codecs.hash);
      dirty := false;
      if i >= |hashes| || h != hashes[i] {
        var same := EqualRect(image, previous, r);
        dirty := !same;
      }
    }

    /** The dirty map, the dirty-pixel count and the hashes of a capture. */
    method ScanTiles(image: Image) returns (dirty: seq<bool>, dirtyPixels: nat, hs: seq<nat>)
      requires ConfigOk(config) && ValidImage(image) && ValidImage(previous)
      requires image.width == previous.width && image.height == previous.height
      ensures hs == Hashes(image, config.tileSize, codecs.hash)
      ensures dirty == Dirty(image, Remembered(), config.tileSize, codecs.hash)
      ensures dirtyPixels == TotalArea(DirtyTiles(dirty, GridOf(image, config.tileSize), |dirty|))
    {
      hide TotalArea, ClippedTile, DirtyTiles, Dirty, Hashes, WellSized, Grid.Cols, Grid.Rows;
      var g := GridOf(image, config.tileSize);
      var cols, rows := g.Cols(), g.Rows();
      var hashArray, dirtyArray := new nat[cols * rows], new bool[cols * rows];
      ghost var H := Hashes(image, config.tileSize, codecs.hash);
      ghost var D := Dirty(image, Remembered(), config.tileSize, codecs.hash);
      dirtyPixels := 0;
      DirtyTilesStart(D, g);
      ghost var scanned := 0;
      for ty := 0 to rows
        invariant scanned == ty * cols && scanned <= |H|
        invariant forall k :: 0 <= k < scanned ==> hashArray[k] == H[k] && dirtyArray[k] == D[k]
        invariant dirtyPixels == TotalArea(DirtyTiles(D, g, scanned))
      {
        var rowPixels := ScanRow(image, ty, hashArray, dirtyArray);
        dirtyPixels := dirtyPixels + rowPixels;
        scanned := (ty + 1) * cols;
      }
      assert scanned == cols * rows;
      dirty, hs := dirtyArray[..], hashArray[..];
      assert hs == H && dirty == D;
    }

    method ScanRow(image: Image, ty: nat, hashArray: array<nat>, dirtyArray: array<bool>) returns (pixels: nat)
      requires ConfigOk(config) && ValidImage(image) && ValidImage(previous)
      requires image.width == previous.width && image.height == previous.height
      requires ty < GridOf(image, config.tileSize).Rows()
      requires hashArray.Length == dirtyArray.Length == TileCount(image, config.tileSize)
      modifies hashArray, dirtyArray
      ensures var g, H := GridOf(image, config.tileSize), Hashes(image, config.tileSize, codecs.hash);
              var D := Dirty(image, Remembered(), config.tileSize, codecs.hash);
              var i, j := ty * g.Cols(), (ty + 1) * g.Cols();
              && i <= j <= |H|
              && (forall k :: 0 <= k < i ==> hashArray[k] == old(hashArray[k]) && dirtyArray[k] == old(dirtyArray[k]))
              && (forall k :: i <= k < j ==> hashArray[k] == H[k] && dirtyArray[k] == D[k])
              && TotalArea(DirtyTiles(D, g, j)) == TotalArea(DirtyTiles(D, g, i)) + pixels
    {
      hide TotalArea, ClippedTile, TileRect, DirtyTiles, Dirty, Hashes, Grid.Cols, Grid.Rows;
      var g := GridOf(image, config.tileSize);
      var cols := g.Cols();
      ghost var H := Hashes(image, config.tileSize, codecs.hash);
      ghost var D := Dirty(image, Remembered(), config.tileSize, codecs.hash);
      ghost var first := ty * cols;
      pixels := 0;
      RowOfTiles(g, ty);
      for tx := 0 to cols
        invariant forall k :: 0 <= k < first ==> hashArray[k] == old(hashArray[k]) && dirtyArray[k] == old(dirtyArray[k])
        invariant forall k :: first <= k < first + tx ==> hashArray[k] == H[k] && dirtyArray[k] == D[k]
        invariant TotalArea(DirtyTiles(D, g, first + tx)) == TotalArea(DirtyTiles(D, g, first)) + pixels
      {
        var i := ty * cols + tx;
        TileOfRow(g, tx, ty);
        var r := ClippedTile(g, tx, ty);
        var h, isDirty := ScanTile(image, i, r);
        DirtyTilesStep(D, g, i);
        hashArray[i], dirtyArray[i] := h, isDirty;
        if isDirty {
          pixels := pixels + r.w * r.h;
        }
      }
    }

    /** The damage rectangles, the dirty-pixel count and the hashes of a capture. */
    method ChangedRectangles(image: Image) returns (rects: seq<Rect>, dirtyPixels: nat, hs: seq<nat>)
      requires ConfigOk(config) && ValidImage(image) && ValidImage(previous)
      requires image.width == previous.width && image.height == previous.height
      ensures hs == StoredHashes(image, config.tileSize, codecs.hash)
      ensures var dirty := Dirty(image, Remembered(), config.tileSize, codecs.hash);
              var g := GridOf(image, config.tileSize);
              if Wraps(image, config.tileSize) then rects == []
              else rects == DamageRects(dirty, g) && dirtyPixels == TotalArea(DirtyTiles(dirty, g, |dirty|))
    {
      hide TotalArea, DirtyTiles, Dirty, Hashes, RunsFrom, MergeInto, Grid.Cols, Grid.Rows;
      // With no tile counted there is nothing to scan.
      TileCountUnlessWrapped(image.width, config.tileSize);
      TileCountUnlessWrapped(image.height, config.tileSize);
      if WrappedCount(image.width, config.tileSize) == 0 || WrappedCount(image.height, config.tileSize) == 0 {
        return [], 0, [];
      }
      var dirty;
      dirty, dirtyPixels, hs := ScanTiles(image);
      var runs := CollectRuns(dirty, GridOf(image, config.tileSize));
      rects := MergeRuns(runs);
    }

    /** A keyframe of the whole image, in bands. */
    method Keyframe(image: Image) returns (r: Result<Frame, Error>)
      requires ConfigOk(config) && ValidImage(image)
      ensures var bands := Bands(WholeImage(image), config.maxRectangleBytes);
              if |bands| > config.maxRectangles then r == Err(RectLimit)
              else AllInBounds(bands, image.width, image.height)
                   && r == Ok(Frame(Header(generation, sequence, 0, true), EncodeAll(image, bands, codecs.deflate)))
    {
      var bands := EncodeRectBanded(image, WholeImage(image), config.maxRectangleBytes, codecs.deflate);
      if |bands| > config.maxRectangles {
        return Err(RectLimit);
      }
      return Ok(Frame(Header(generation, sequence, 0, true), bands));
    }

    /** Encodes the damage in bands, giving up once the rectangle limit is passed. */
    method EncodeRects(image: Image, rects: seq<Rect>) returns (out: seq<Rectangle>, ok: bool)
      requires ValidImage(image) && Disjoint(rects) && AllInBounds(rects, image.width, image.height)
      ensures AllInBounds(BandAll(rects, config.maxRectangleBytes), image.width, image.height)
      ensures ok <==> |BandAll(rects, config.maxRectangleBytes)| <= config.maxRectangles
      ensures ok ==> out == EncodeAll(image, BandAll(rects, config.maxRectangleBytes), codecs.deflate)
    {
      hide BandAll, Bands, EncodeAll;
      var budget := config.maxRectangleBytes;
      out := [];
      BandAllExact(rects, budget, image.width, image.height);
      BandAllStart(image, budget, codecs.deflate);
      for i := 0 to |rects|
        invariant AllInBounds(BandAll(rects[..i], budget), image.width, image.height)
        invariant out == EncodeAll(image, BandAll(rects[..i], budget), codecs.deflate)
        invariant |BandAll(rects[..i], budget)| <= config.maxRectangles
      {
        BandAllStep(rects, i, budget);
        BandAllExact(rects[..i + 1], budget, image.width, image.height);
        EncodeAllConcat(image, BandAll(rects[..i], budget), Bands(rects[i], budget), codecs.deflate);
        var bands := EncodeRectBanded(image, rects[i], budget, codecs.deflate);
        if |out| + |bands| > config.maxRectangles {
          BandAllGrows(rects, i + 1, budget);
          return [], false;
        }
        out := out + bands;
      }
      assert rects[..|rects|] == rects;
      return out, true;
    }

    method Remember(image: Image, hs: seq<nat>)
      modifies this
      ensures previous == image && hashes == hs
      ensures generation == old(generation) && sequence == old(sequence)
    {
      previous, hashes := image, hs;
    }

    /** Remembers a capture whose hashes were not computed while scanning. */
    method RememberAndHash(image: Image)
      requires ConfigOk(config) && ValidImage(image)
      modifies this
      ensures Remembered() == Damage.Remember(old(Remembered()), image, config.tileSize, codecs.hash)
    {
      hide Hashes;
      TileCountUnlessWrapped(image.width, config.tileSize);
      TileCountUnlessWrapped(image.height, config.tileSize);
      var hs := [];
      if WrappedCount(image.width, config.tileSize) != 0 && WrappedCount(image.height, config.tileSize) != 0 {
        hs := HashTiles(image);
      }
      Remember(image, hs);
    }

    /** The hash of every tile, in row-major order. */
    method HashTiles(image: Image) returns (hs: seq<nat>)
      requires ConfigOk(config) && ValidImage(image)
      ensures hs == Hashes(image, config.tileSize, codecs.hash)
    {
      hide Hashes, ClippedTile, Grid.Cols, Grid.Rows, WellSized;
      var g := GridOf(image, config.tileSize);
      var cols, rows := g.Cols(), g.Rows();
      var hashArray := new nat[cols * rows];
      ghost var H := Hashes(image, config.tileSize, codecs.hash);
      ghost var done := 0;
      for ty := 0 to rows
        invariant done == ty * cols && done <= |H|
        invariant forall k :: 0 <= k < done ==> hashArray[k] == H[k]
      {
        HashRow(image, ty, hashArray);
        done := (ty + 1) * cols;
      }
      assert done == cols * rows;
      assert hashArray[..] == H;
      return hashArray[..];
    }

    method HashRow(image: Image, ty: nat, hashArray: array<nat>)
      requires ConfigOk(config) && ValidImage(image)
      requires ty < GridOf(image, config.tileSize).Rows() && hashArray.Length == TileCount(image, config.tileSize)
      modifies hashArray
      ensures var cols, H := GridOf(image, config.tileSize).Cols(), Hashes(image, config.tileSize, codecs.hash);
              && ty * cols <= (ty + 1) * cols <= |H|
              && (forall k :: 0 <= k < ty * cols ==> hashArray[k] == old(hashArray[k]))
              && (forall k :: ty * cols <= k < (ty + 1) * cols ==> hashArray[k] == H[k])
    {
      hide Hashes, ClippedTile, Grid.Cols, Grid.Rows, WellSized;
      var g := GridOf(image, config.tileSize);
      var cols := g.Cols();
      ghost var H := Hashes(image, config.tileSize, codecs.hash);
      ghost var first := ty * cols;
      ColumnExists(g);
      ScanIndex(cols, g.Rows(), 0, ty);
      for tx := 0 to cols
        invariant forall k :: 0 <= k < first ==> hashArray[k] == old(hashArray[k])
        invariant forall k :: first <= k < first + tx ==> hashArray[k] == H[k]
      {
        var i := ty * cols + tx;
        ScanIndex(cols, g.Rows(), tx, ty);
        var h := HashRect(image, ClippedTile(g, tx, ty), codecs.hash);
        HashAt(image, config.tileSize, codecs.hash, i);
        hashArray[i] := h;
      }
    }

    /** One capture: nothing, a delta, or a keyframe. Once an error is returned the
        generation and sequence have already moved. */
    method Compare(image: Image, force: bool) returns (r: Result<Option<Frame>, Error>)
      requires Valid()
      modifies this
      ensures Valid()
      ensures (Remembered(), r) == Damage.Compare(old(Remembered()), image, force, config, codecs)
    {
      hide StoredHashes, CompareTiles, FullFrame;
      CompareKeepsMemory(Remembered(), image, force, config, codecs);
      if !ValidImage(image) {
        return Err(InvalidImage);
      }
      var changed := previous.width != image.width || previous.height != image.height;
      if generation == 0 || changed {
        generation := generation + 1;
      }
      sequence := sequence + 1;
      if |previous.pixels| == 0 || changed || force {
        r := SendWhole(image);
      } else {
        r := SendDamage(image);
      }
    }

    /** Falls back to a keyframe when the damage is too scattered or too large. */
    method SendDamage(image: Image) returns (r: Result<Option<Frame>, Error>)
      requires ConfigOk(config) && ValidImage(image) && ValidImage(previous) && 0 < sequence
      requires image.width == previous.width && image.height == previous.height
      modifies this
      ensures (Remembered(), r) == CompareTiles(old(Remembered()), image, config, codecs)
    {
      hide Dirty, StoredHashes, DamageRects, DirtyTiles, BandAll, Bands, EncodeAll, TotalArea, FullFrame;
      var rects, dirtyPixels, hs := ChangedRectangles(image);
      if |rects| == 0 {
        sequence := sequence - 1;
        return Ok(None);
      }
      DamageRectsExact(Dirty(image, Remembered(), config.tileSize, codecs.hash), GridOf(image, config.tileSize));
      ImageNotEmpty(image);
      var area := image.width * image.height;
      if |rects| > config.maxRectangles || dirtyPixels as real / area as real > config.dirtyRatio {
        r := SendWhole(image);
        return;
      }
      var encoded, ok := EncodeRects(image, rects);
      if !ok {
        r := SendWhole(image);
        return;
      }
      var frame := Frame(Header(generation, sequence, sequence - 1, false), encoded);
      Remember(image, hs);
      return Ok(Some(frame));
    }

    /** A keyframe, remembered only when it could be built. */
    method SendWhole(image: Image) returns (r: Result<Option<Frame>, Error>)
      requires ValidImage(image) && ConfigOk(config)
      modifies this
      ensures (Remembered(), r) == FullFrame(old(Remembered()), image, config, codecs)
    {
      hide StoredHashes, Bands, EncodeAll;
      var frame := Keyframe(image);
      if frame.Err? {
        return Err(frame.error);
      }
      RememberAndHash(image);
      return Ok(Some(frame.value));
    }
  }

  // ----- small facts the loops use

  lemma ScanIndex(cols: nat, rows: nat, tx: nat, ty: nat)
    requires tx < cols && ty < rows
    ensures ty * cols + tx < cols * rows && ty * cols + cols <= cols * rows
    ensures (ty * cols + tx) % cols == tx && (ty * cols + tx) / cols == ty
    ensures (ty + 1) * cols == ty * cols + cols
  {
    RowMajorBound(tx, ty, cols, rows);
    RowMajorBound(cols - 1, ty, cols, rows);
    RowMajor(tx, ty, cols);
    Distribute(ty, 1, cols);
  }

  lemma ColumnExists(g: Grid)
    requires g.Valid()
    ensures 0 < g.Cols()
  {
    TileExists(g.width, g.tile, 0);
  }

  lemma DirtyTilesStart(d: seq<bool>, g: Grid)
    requires DirtyMap(d, g)
    ensures TotalArea(DirtyTiles(d, g, 0)) == 0
  {
  }

  /** The tiles of a row are consecutive. */
  lemma RowOfTiles(g: Grid, ty: nat)
    requires g.Valid() && ty < g.Rows()
    ensures 0 < g.Cols() && 0 <= ty * g.Cols()
    ensures ty * g.Cols() + g.Cols() == (ty + 1) * g.Cols() <= g.Cols() * g.Rows()
  {
    TileExists(g.width, g.tile, 0);
    ScanIndex(g.Cols(), g.Rows(), 0, ty);
  }

  lemma TileOfRow(g: Grid, tx: nat, ty: nat)
    requires g.Valid() && tx < g.Cols() && ty < g.Rows()
    ensures var i := ty * g.Cols() + tx;
            i < g.Cols() * g.Rows() && ClippedTile(g, tx, ty) == TileRect(g, i)
  {
    hide ClippedTile, Grid.Cols, Grid.Rows;
    ScanIndex(g.Cols(), g.Rows(), tx, ty);
  }

  lemma DirtyTilesStep(d: seq<bool>, g: Grid, i: nat)
    requires DirtyMap(d, g) && i < |d|
    ensures TotalArea(DirtyTiles(d, g, i + 1))
            == TotalArea(DirtyTiles(d, g, i)) + if d[i] then Area(TileRect(g, i)) else 0
  {
    hide TileRect;
    var tiles := DirtyTiles(d, g, i);
    if d[i] {
      assert (tiles + [TileRect(g, i)])[..|tiles|] == tiles;
    } else {
      assert tiles + [] == tiles;
    }
  }

  lemma HashAt(image: Image, tileSize: nat, hash: seq<byte> -> nat, i: nat)
    requires ValidImage(image) && 0 < tileSize && i < TileCount(image, tileSize)
    ensures Hashes(image, tileSize, hash)[i] == hash(Crop(image, TileRect(GridOf(image, tileSize), i)))
  {
    hide Hashes;
  }

  lemma BandAllStart(image: Image, budget: nat, deflate: seq<byte> -> seq<byte>)
    requires ValidImage(image)
    ensures BandAll([], budget) == [] && EncodeAll(image, [], deflate) == []
  {
  }

  lemma BandAllStep(rs: seq<Rect>, i: nat, budget: nat)
    requires i < |rs|
    ensures BandAll(rs[..i + 1], budget) == BandAll(rs[..i], budget) + Bands(rs[i], budget)
  {
    assert rs[..i + 1][..i] == rs[..i];
  }

  lemma {:induction false} BandAllGrows(rs: seq<Rect>, i: nat, budget: nat)
    requires i <= |rs|
    ensures |BandAll(rs[..i], budget)| <= |BandAll(rs, budget)|
    decreases |rs| - i
  {
    if i < |rs| {
      BandAllStep(rs, i, budget);
      BandAllGrows(rs, i + 1, budget);
    } else {
      assert rs[..i] == rs;
    }
  }
}
