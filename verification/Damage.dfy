/** What one capture turns into: nothing, a delta of the dirty tiles, or a keyframe. */
module Damage {
  import opened Types
  import opened Geometry
  import opened Raster
  import opened Messages
  import opened Tiling

  const MAX_RECTANGLE_BYTES: nat := MAX_PIXEL_PAYLOAD_HARD - 4096
  const FRAME_WIRE_FLOOR: nat := 53

  datatype Config = Config(tileSize: nat, dirtyRatio: real, maxRectangles: nat, maxRectangleBytes: nat)

  /** The compressor and the tile hash; neither is modelled further. */
  datatype Codecs = Codecs(deflate: seq<byte> -> seq<byte>, hash: seq<byte> -> nat)

  /** What the detector remembers between captures; no pixels means no capture yet. */
  datatype Memory = Memory(previous: Image, hashes: seq<nat>, generation: nat, sequence: nat)

  const NO_MEMORY := Memory(Image(0, 0, []), [], 0, 0)

  /** Detector defaults, then the session's effective wire limits. */
  function Normalize(c: Config, limits: Limits): Config {
    var wireBytes := Clamp(limits.maxPixelPayload, MAX_PIXEL_PAYLOAD_HARD);
    var wireRectangles := Clamp(limits.maxRectangles, MAX_RECTANGLES_HARD);
    var budget := if wireBytes > FRAME_WIRE_FLOOR then wireBytes - FRAME_WIRE_FLOOR else 0;
    Config(
      if c.tileSize == 0 then 64 else c.tileSize,
      if c.dirtyRatio <= 0.0 || c.dirtyRatio > 1.0 then 0.60 else c.dirtyRatio,
      Min(Clamp(c.maxRectangles, MAX_RECTANGLES_HARD), wireRectangles),
      Min(Clamp(c.maxRectangleBytes, MAX_RECTANGLE_BYTES), budget))
  }

  predicate ConfigOk(c: Config) {
    0 < c.tileSize && 0.0 < c.dirtyRatio <= 1.0 && 0 < c.maxRectangles <= MAX_RECTANGLES_HARD
  }

  predicate ValidImage(image: Image) {
    && 0 < image.width <= MAX_DIMENSION_HARD && 0 < image.height <= MAX_DIMENSION_HARD
    && WellSized(image)
  }

  function GridOf(image: Image, tileSize: nat): Grid { Grid(image.width, image.height, tileSize) }

  function TileCount(image: Image, tileSize: nat): nat
    requires 0 < tileSize
  {
    GridOf(image, tileSize).Cols() * GridOf(image, tileSize).Rows()
  }

  function TileBytes(image: Image, tileSize: nat, i: nat): seq<byte>
    requires ValidImage(image) && 0 < tileSize && i < TileCount(image, tileSize)
  {
    Crop(image, TileRect(GridOf(image, tileSize), i))
  }

  function Hashes(image: Image, tileSize: nat, hash: seq<byte> -> nat): (hs: seq<nat>)
    requires ValidImage(image) && 0 < tileSize
    ensures |hs| == TileCount(image, tileSize)
    ensures forall i :: 0 <= i < |hs| ==> hs[i] == hash(TileBytes(image, tileSize, i))
  {
    seq<nat>(TileCount(image, tileSize), i requires 0 <= i < TileCount(image, tileSize) =>
      hash(TileBytes(image, tileSize, i)))
  }

  /** The 32-bit tile arithmetic wraps for this image, which leaves it without any tile. */
  predicate Wraps(image: Image, tileSize: nat) {
    image.width + tileSize - 1 > UINT32_MAX || image.height + tileSize - 1 > UINT32_MAX
  }

  /** No legal image wraps. */
  predicate ExactTiles(tileSize: nat) { tileSize + MAX_DIMENSION_HARD - 1 <= UINT32_MAX }

  /** The hashes kept with an image. */
  function StoredHashes(image: Image, tileSize: nat, hash: seq<byte> -> nat): seq<nat>
    requires ValidImage(image) && 0 < tileSize
  {
    if Wraps(image, tileSize) then [] else Hashes(image, tileSize, hash)
  }

  /** A tile whose hash did not change is taken as clean; any other is compared. */
  function Dirty(image: Image, m: Memory, tileSize: nat, hash: seq<byte> -> nat): (d: seq<bool>)
    requires ValidImage(image) && ValidImage(m.previous) && 0 < tileSize
    requires image.width == m.previous.width && image.height == m.previous.height
    ensures |d| == TileCount(image, tileSize)
    ensures forall i :: 0 <= i < |d| ==>
              d[i] == ((i >= |m.hashes| || hash(TileBytes(image, tileSize, i)) != m.hashes[i])
                       && TileBytes(image, tileSize, i) != TileBytes(m.previous, tileSize, i))
  {
    seq(TileCount(image, tileSize), i requires 0 <= i < TileCount(image, tileSize) =>
      (i >= |m.hashes| || hash(TileBytes(image, tileSize, i)) != m.hashes[i])
      && TileBytes(image, tileSize, i) != TileBytes(m.previous, tileSize, i))
  }

  function Encode(image: Image, r: Rect, deflate: seq<byte> -> seq<byte>): Rectangle
    requires WellSized(image) && InBounds(r, image.width, image.height)
  {
    var raw := Crop(image, r);
    if |deflate(raw)| < |raw| then Rectangle(r, ZLIB_BGRA, deflate(raw)) else Rectangle(r, RAW_BGRA, raw)
  }

  function EncodeAll(image: Image, rs: seq<Rect>, deflate: seq<byte> -> seq<byte>): (out: seq<Rectangle>)
    requires WellSized(image) && AllInBounds(rs, image.width, image.height)
    ensures |out| == |rs| && Rects(out) == rs
  {
    seq(|rs|, k requires 0 <= k < |rs| => Encode(image, rs[k], deflate))
  }

  ghost predicate MemoryOk(m: Memory, c: Config, hash: seq<byte> -> nat) {
    0 < c.tileSize &&
    if m.previous.pixels == [] then m.previous == NO_MEMORY.previous
    else ValidImage(m.previous) && m.hashes == StoredHashes(m.previous, c.tileSize, hash)
         && 0 < m.generation && 0 < m.sequence
  }

  function WholeImage(image: Image): Rect { Rect(0, 0, image.width, image.height) }

  function Remember(m: Memory, image: Image, tileSize: nat, hash: seq<byte> -> nat): Memory
    requires ValidImage(image) && 0 < tileSize
  {
    m.(previous := image, hashes := StoredHashes(image, tileSize, hash))
  }

  lemma WholeImageBands(image: Image, budget: nat)
    requires ValidImage(image)
    ensures AllInBounds(Bands(WholeImage(image), budget), image.width, image.height)
  {
    BandsExact(WholeImage(image), budget, image.width, image.height);
  }

  /** A keyframe of the whole image in bands, or the rectangle limit's error. */
  function FullFrame(m: Memory, image: Image, c: Config, codecs: Codecs)
    : (Memory, Result<Option<Frame>, Error>)
    requires ValidImage(image) && ConfigOk(c)
  {
    var bands := Bands(WholeImage(image), c.maxRectangleBytes);
    if |bands| > c.maxRectangles then (m, Err(RectLimit))
    else
      WholeImageBands(image, c.maxRectangleBytes);
      (Remember(m, image, c.tileSize, codecs.hash),
       Ok(Some(Frame(Header(m.generation, m.sequence, 0, true), EncodeAll(image, bands, codecs.deflate)))))
  }

  lemma DamageInBounds(d: seq<bool>, g: Grid, budget: nat)
    requires DirtyMap(d, g)
    ensures AllInBounds(BandAll(DamageRects(d, g), budget), g.width, g.height)
  {
    DamageRectsExact(d, g);
    BandAllExact(DamageRects(d, g), budget, g.width, g.height);
  }

  predicate TooDirty(dirtyPixels: nat, image: Image, ratio: real)
    requires ValidImage(image)
  {
    dirtyPixels as real / (image.width * image.height) as real > ratio
  }

  /** An unforced capture of the remembered geometry; m.sequence has already advanced. */
  function CompareTiles(m: Memory, image: Image, c: Config, codecs: Codecs)
    : (Memory, Result<Option<Frame>, Error>)
    requires ConfigOk(c) && ValidImage(image) && ValidImage(m.previous) && 0 < m.sequence
    requires image.width == m.previous.width && image.height == m.previous.height
  {
    var g := GridOf(image, c.tileSize);
    var dirty := Dirty(image, m, c.tileSize, codecs.hash);
    var rects := DamageRects(dirty, g);
    if Wraps(image, c.tileSize) || rects == [] then (m.(sequence := m.sequence - 1), Ok(None))
    else if |rects| > c.maxRectangles
            || TooDirty(TotalArea(DirtyTiles(dirty, g, |dirty|)), image, c.dirtyRatio) then
      FullFrame(m, image, c, codecs)
    else
      var bands := BandAll(rects, c.maxRectangleBytes);
      if |bands| > c.maxRectangles then FullFrame(m, image, c, codecs)
      else
        DamageInBounds(dirty, g, c.maxRectangleBytes);
        (Remember(m, image, c.tileSize, codecs.hash),
         Ok(Some(Frame(Header(m.generation, m.sequence, m.sequence - 1, false),
                       EncodeAll(image, bands, codecs.deflate)))))
  }

  function Compare(m: Memory, image: Image, force: bool, c: Config, codecs: Codecs)
    : (Memory, Result<Option<Frame>, Error>)
    requires ConfigOk(c) && MemoryOk(m, c, codecs.hash)
  {
    if !ValidImage(image) then (m, Err(InvalidImage))
    else
      var changed := m.previous.width != image.width || m.previous.height != image.height;
      var generation := if m.generation == 0 || changed then m.generation + 1 else m.generation;
      var next := m.(generation := generation, sequence := m.sequence + 1);
      if m.previous.pixels == [] || changed || force then FullFrame(next, image, c, codecs)
      else CompareTiles(next, image, c, codecs)
  }

  // ----- what a comparison promises

  lemma NormalizeIsOk(c: Config, limits: Limits)
    ensures ConfigOk(Normalize(c, limits))
    ensures Normalize(c, limits).maxRectangles <= Bounded(limits).maxRectangles
    ensures Bounded(limits).maxPixelPayload > FRAME_WIRE_FLOOR ==>
              Normalize(c, limits).maxRectangleBytes + FRAME_WIRE_FLOOR <= Bounded(limits).maxPixelPayload
  {
  }

  lemma ImageNotEmpty(image: Image)
    requires ValidImage(image)
    ensures image.pixels != [] && 0 < image.width * image.height
  {
    RowMajorBound(0, 0, image.width, image.height);
  }

  /** A tile size that wraps for a remembered geometry blinds the detector: whatever the
      pixels are, an unforced capture of that geometry counts as unchanged. */
  lemma WrappedSeesNothing(m: Memory, image: Image, c: Config, codecs: Codecs)
    requires ConfigOk(c) && MemoryOk(m, c, codecs.hash) && m.previous.pixels != [] && ValidImage(image)
    requires m.previous.width == image.width && m.previous.height == image.height
    requires Wraps(image, c.tileSize)
    ensures Compare(m, image, false, c, codecs) == (m, Ok(None))
  {
    hide Dirty, DamageRects, TileCount, WellSized, GridOf;
  }

  lemma CompareKeepsMemory(m: Memory, image: Image, force: bool, c: Config, codecs: Codecs)
    requires ConfigOk(c) && MemoryOk(m, c, codecs.hash)
    ensures MemoryOk(Compare(m, image, force, c, codecs).0, c, codecs.hash)
  {
    hide StoredHashes, Dirty, DamageRects, BandAll, Bands, EncodeAll, TotalArea, DirtyTiles, TooDirty, TileCount;
    hide WellSized, GridOf;
    if ValidImage(image) {
      ImageNotEmpty(image);
    }
  }
}
