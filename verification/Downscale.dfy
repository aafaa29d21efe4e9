/** The v1 compatibility transform and the pointer mapping that undoes it. */
module Downscale {
  import opened Types
  import opened Raster

  // ----- choosing the factor

  function Pow2(k: nat): (p: nat)
    ensures p > 0
  {
    if k == 0 then 1 else 2 * Pow2(k - 1)
  }

  /** n >> k */
  function Shift(n: nat, k: nat): (r: nat)
    ensures r <= n
  {
    if k == 0 then n else Shift(n, k - 1) / 2
  }

  /** The first source column or row of the block that output column or row o averages. */
  function Origin(o: nat, k: nat): nat {
    o * Pow2(k)
  }

  /** The number of pixels in a block. */
  function BlockArea(block: nat): (a: nat)
    ensures 0 < block ==> 0 < a
  {
    RowMajorBound(0, 0, if block == 0 then 1 else block, if block == 0 then 1 else block);
    block * block
  }

  lemma Twice(a: nat, p: nat)
    ensures a * (2 * p) == a * 2 * p
  {
  }

  lemma {:induction false} ShiftBlocks(n: nat, k: nat)
    ensures Origin(Shift(n, k), k) <= n
  {
    if k > 0 {
      ShiftBlocks(n, k - 1);
      var q, p := Shift(n, k - 1), Pow2(k - 1);
      Twice(q / 2, p);
      MulMonotone(q / 2 * 2, q, p);
    }
  }

  function FactorFrom(width: nat, height: nat, budget: nat, k: nat): nat
    requires 0 < width && 0 < height && k <= 32
    decreases 32 - k
  {
    if k == 32 then 31
    else
      var w, h := Shift(width, k), Shift(height, k);
      if w == 0 || h == 0 then (if k == 0 then 0 else k - 1)
      else if w * h * 4 <= budget then k
      else FactorFrom(width, height, budget, k + 1)
  }

  function Factor(width: nat, height: nat, budget: nat): nat {
    if width == 0 || height == 0 then 0 else FactorFrom(width, height, budget, 0)
  }

  method DownscaleFactor(width: nat, height: nat, budget: nat) returns (factor: nat)
    ensures factor == Factor(width, height, budget)
  {
    if width == 0 || height == 0 {
      return 0;
    }
    for k := 0 to 32
      invariant FactorFrom(width, height, budget, k) == Factor(width, height, budget)
      invariant k > 0 ==> Shift(width, k - 1) > 0 && Shift(height, k - 1) > 0
    {
      var w, h := Shift(width, k), Shift(height, k);
      if w == 0 || h == 0 {
        return k - 1;
      }
      if w * h * 4 <= budget {
        return k;
      }
    }
    return 31;
  }

  /** Both output dimensions exist and their bytes fit the budget. */
  predicate FitsAt(width: nat, height: nat, budget: nat, k: nat) {
    && Shift(width, k) > 0 && Shift(height, k) > 0
    && Shift(width, k) * (Shift(height, k)) * 4 <= budget
  }

  /** Anything that does not fit can still be halved both ways. */
  lemma StillHalvable(w: nat, h: nat, budget: nat)
    requires 0 < w <= 8192 && 0 < h <= 8192 && 8192 * 4 <= budget && w * h * 4 > budget
    ensures 0 < w / 2 && 0 < h / 2
  {
    assert w == 1 ==> w * h == h;
    assert h == 1 ==> w * h == w;
  }

  lemma {:induction false} FactorFromFits(width: nat, height: nat, budget: nat, k: nat)
    requires 0 < width <= 8192 && 0 < height <= 8192 && 8192 * 4 <= budget
    requires k <= 13 && 0 < Shift(width, k) && 0 < Shift(height, k)
    ensures var f := FactorFrom(width, height, budget, k);
            && k <= f <= 13
            && FitsAt(width, height, budget, f)
            && forall j :: k <= j < f ==> !FitsAt(width, height, budget, j)
    decreases 13 - k
  {
    var w, h := Shift(width, k), Shift(height, k);
    if w * h * 4 > budget {
      StillHalvable(w, h, budget);
      if k < 13 {
        FactorFromFits(width, height, budget, k + 1);
      } else {
        ThirteenHalvings(width);
      }
    }
  }

  lemma ThirteenHalvings(n: nat)
    requires n <= 8192
    ensures Shift(n, 13) <= 1
  {
    ShiftBlocks(n, 13);
    assert Pow2(8) == 256 by {
      assert Pow2(4) == 16;
    }
    assert Pow2(13) == 8192;
  }

  /** A budget that holds one row of the widest display always finds a factor that fits. */
  lemma RowBudgetFits(width: nat, height: nat, budget: nat)
    requires 0 < width <= 8192 && 0 < height <= 8192 && 8192 * 4 <= budget
    ensures FitsAt(width, height, budget, Factor(width, height, budget))
  {
    FactorFromFits(width, height, budget, 0);
  }

  lemma {:induction false} ShiftedOut(n: nat, a: nat, b: nat)
    requires Shift(n, a) == 0 && a <= b
    ensures Shift(n, b) == 0
    decreases b
  {
    if a < b {
      ShiftedOut(n, a, b - 1);
    }
  }

  lemma ThirtyTwoHalvings(n: nat)
    requires n < 0x1_0000_0000
    ensures Shift(n, 32) == 0
  {
    ShiftBlocks(n, 32);
    assert Pow2(32) == 0x1_0000_0000 by {
      assert Pow2(24) == 0x100_0000 by {
        assert Pow2(16) == 0x1_0000 by {
          assert Pow2(8) == 0x100;
        }
      }
    }
    MulMonotone(if Shift(n, 32) == 0 then 0 else 1, Shift(n, 32), Pow2(32));
  }

  /** One round of the search. */
  lemma FactorFromStep(width: nat, height: nat, budget: nat, k: nat)
    requires 0 < width && 0 < height && k <= 31 && 0 < Shift(width, k) && 0 < Shift(height, k)
    ensures FactorFrom(width, height, budget, k)
            == if FitsAt(width, height, budget, k) || k == 31 || Shift(width, k + 1) == 0 || Shift(height, k + 1) == 0 then k
               else FactorFrom(width, height, budget, k + 1)
  {
    hide Shift;
  }

  lemma {:induction false} FactorFromMeaning(width: nat, height: nat, budget: nat, k: nat)
    requires 0 < width < 0x1_0000_0000 && 0 < height < 0x1_0000_0000
    requires k <= 31 && 0 < Shift(width, k) && 0 < Shift(height, k)
    ensures var f := FactorFrom(width, height, budget, k);
            && k <= f <= 31 && 0 < Shift(width, f) && 0 < Shift(height, f)
            && (forall j :: k <= j < f ==> !FitsAt(width, height, budget, j))
            && (FitsAt(width, height, budget, f) || Shift(width, f + 1) == 0 || Shift(height, f + 1) == 0)
    decreases 32 - k
  {
    hide FactorFrom, FitsAt, Shift;
    FactorFromStep(width, height, budget, k);
    if k == 31 {
      ThirtyTwoHalvings(width);
    } else if 0 < Shift(width, k + 1) && 0 < Shift(height, k + 1) {
      FactorFromMeaning(width, height, budget, k + 1);
    }
  }

  /** Downscale factor: for every display and every budget, the smallest factor whose
      output exists and fits; where no factor fits, the last whose output exists. */
  lemma FactorIsSmallestFitting(width: nat, height: nat, budget: nat)
    requires 0 < width < 0x1_0000_0000 && 0 < height < 0x1_0000_0000
    ensures var f := Factor(width, height, budget);
            && f <= 31 && 0 < Shift(width, f) && 0 < Shift(height, f)
            && (forall j :: 0 <= j < f ==> !FitsAt(width, height, budget, j))
            && (FitsAt(width, height, budget, f) <==> exists j: nat :: FitsAt(width, height, budget, j))
            && (!FitsAt(width, height, budget, f) ==> Shift(width, f + 1) == 0 || Shift(height, f + 1) == 0)
  {
    hide FactorFrom, FitsAt, Shift;
    FactorFromMeaning(width, height, budget, 0) by {
      assert Shift(width, 0) == width && Shift(height, 0) == height by { NoShift(width); NoShift(height); }
    }
    var f := Factor(width, height, budget);
    forall j: nat | f < j && (Shift(width, f + 1) == 0 || Shift(height, f + 1) == 0)
      ensures !FitsAt(width, height, budget, j)
    {
      NothingLeftToFit(width, height, budget, f + 1, j);
    }
  }

  lemma NoShift(n: nat)
    ensures Shift(n, 0) == n
  {
  }

  lemma NothingLeftToFit(width: nat, height: nat, budget: nat, k: nat, j: nat)
    requires k <= j && (Shift(width, k) == 0 || Shift(height, k) == 0)
    ensures !FitsAt(width, height, budget, j)
  {
    if Shift(width, k) == 0 {
      ShiftedOut(width, k, j);
    } else {
      ShiftedOut(height, k, j);
    }
  }

  // ----- averaging blocks

  /** The image's bytes reach at least to the end of column x of row y (both counted from 1). */
  predicate Holds(image: Image, x: nat, y: nat) {
    x <= image.width && (x == 0 || y == 0 || ((y - 1) * image.width + x) * 4 <= |image.pixels|)
  }

  lemma HoldsLess(image: Image, x: nat, y: nat, x': nat, y': nat)
    requires Holds(image, x, y) && x' <= x && y' <= y
    ensures Holds(image, x', y')
  {
    if 0 < x' && 0 < y' {
      MulMonotone(y' - 1, y - 1, image.width);
    }
  }

  lemma WellSizedHolds(image: Image, x: nat, y: nat)
    requires WellSized(image) && x <= image.width && y <= image.height
    ensures Holds(image, x, y)
  {
    if 0 < x && 0 < y {
      RowMajorBound(x - 1, y - 1, image.width, image.height);
    }
  }

  function ByteAt(image: Image, x: nat, y: nat, c: nat): byte
    requires Holds(image, x + 1, y + 1) && c < 4
  {
    image.pixels[(y * image.width + x) * 4 + c]
  }

  /** Channel c summed over n pixels of row y. */
  function RowSum(image: Image, x: nat, y: nat, c: nat, n: nat): nat
    requires Holds(image, x + n, y + 1) && c < 4
  {
    if n == 0 then 0 else RowSum(image, x, y, c, n - 1) + ByteAt(image, x + n - 1, y, c)
  }

  /** Channel c summed over the top n rows of a block-wide strip. */
  function BlockSum(image: Image, x: nat, y: nat, c: nat, n: nat, block: nat): nat
    requires Holds(image, x + block, y + n) && c < 4
  {
    if n == 0 then 0
    else
      HoldsLess(image, x + block, y + n, x + block, y + n - 1);
      BlockSum(image, x, y, c, n - 1, block) + RowSum(image, x, y + n - 1, c, block)
  }

  function Average(sum: nat, area: nat): nat
    requires 0 < area
  {
    (sum + area / 2) / area
  }

  ghost predicate BlockWithin(image: Image, x: nat, y: nat, c: nat, n: nat, block: nat, lo: nat, hi: nat)
    requires Holds(image, x + block, y + n) && c < 4
  {
    forall px: nat, py: nat :: x <= px < x + block && y <= py < y + n ==>
      (HoldsLess(image, x + block, y + n, px + 1, py + 1); lo <= ByteAt(image, px, py, c) <= hi)
  }

  lemma {:induction false} RowSumWithin(image: Image, x: nat, y: nat, c: nat, n: nat, lo: nat, hi: nat)
    requires Holds(image, x + n, y + 1) && c < 4
    requires forall px: nat :: x <= px < x + n ==> lo <= ByteAt(image, px, y, c) <= hi
    ensures n * lo <= RowSum(image, x, y, c, n) <= n * hi
  {
    hide ByteAt;
    if n > 0 {
      RowSumWithin(image, x, y, c, n - 1, lo, hi);
      Distribute(n - 1, 1, lo);
      Distribute(n - 1, 1, hi);
    }
  }

  lemma {:induction false} BlockSumWithin(image: Image, x: nat, y: nat, c: nat, n: nat, block: nat, lo: nat, hi: nat)
    requires Holds(image, x + block, y + n) && c < 4
    requires BlockWithin(image, x, y, c, n, block, lo, hi)
    ensures n * (block * lo) <= BlockSum(image, x, y, c, n, block) <= n * (block * hi)
  {
    hide ByteAt, RowSum;
    if n > 0 {
      HoldsLess(image, x + block, y + n, x + block, y + n - 1);
      BlockSumWithin(image, x, y, c, n - 1, block, lo, hi);
      RowSumWithin(image, x, y + n - 1, c, block, lo, hi);
      Distribute(n - 1, 1, block * lo);
      Distribute(n - 1, 1, block * hi);
    }
  }

  lemma AverageWithin(sum: nat, area: nat, lo: nat, hi: nat)
    requires 0 < area && area * lo <= sum <= area * hi
    ensures lo <= Average(sum, area) <= hi
  {
    var q, r := Average(sum, area), (sum + area / 2) % area;
    assert sum + area / 2 == q * area + r;
    if q < lo {
      MulStep(q, lo, area);
    } else if hi < q {
      MulStep(hi, q, area);
    }
  }

  lemma Reassociate(b: nat, v: nat)
    ensures b * (b * v) == BlockArea(b) * v
  {
  }

  /** A rounded block average never leaves the range of the block it averages. */
  lemma AverageWithinBlock(image: Image, x: nat, y: nat, c: nat, b: nat, lo: nat, hi: nat)
    requires Holds(image, x + b, y + b) && c < 4 && 0 < b
    requires BlockWithin(image, x, y, c, b, b, lo, hi)
    ensures lo <= Average(BlockSum(image, x, y, c, b, b), BlockArea(b)) <= hi
  {
    hide ByteAt, BlockSum, Average, BlockWithin, Holds, BlockArea;
    BlockSumWithin(image, x, y, c, b, b, lo, hi);
    Reassociate(b, lo);
    Reassociate(b, hi);
    AverageWithin(BlockSum(image, x, y, c, b, b), BlockArea(b), lo, hi);
  }

  /** The rounded average of a block is a byte: narrowing it loses nothing. */
  function BlockAverage(image: Image, x: nat, y: nat, c: nat, b: nat): byte
    requires Holds(image, x + b, y + b) && c < 4 && 0 < b
  {
    AverageWithinBlock(image, x, y, c, b, 0, 255);
    Average(BlockSum(image, x, y, c, b, b), BlockArea(b))
  }

  /** Every source pixel of an output pixel's block exists. */
  lemma BlockInside(n: nat, k: nat, o: nat)
    requires o < Shift(n, k)
    ensures Origin(o, k) + Pow2(k) <= n
  {
    hide Origin, Shift;
    ShiftBlocks(n, k);
    OriginStep(o, Shift(n, k), k);
  }

  lemma OriginStep(o: nat, n: nat, k: nat)
    requires o < n
    ensures Origin(o, k) + Pow2(k) <= Origin(n, k)
  {
    hide Pow2;
    MulStep(o, n, Pow2(k));
  }

  /** Every byte the reduction reads exists. */
  predicate Readable(image: Image, k: nat) {
    Holds(image, Origin(Shift(image.width, k), k), Origin(Shift(image.height, k), k))
  }

  lemma BlockReadable(image: Image, k: nat, ox: nat, oy: nat)
    requires Readable(image, k) && ox < Shift(image.width, k) && oy < Shift(image.height, k)
    ensures Holds(image, Origin(ox, k) + Pow2(k), Origin(oy, k) + Pow2(k))
  {
    hide Origin, Shift, Holds;
    OriginStep(ox, Shift(image.width, k), k);
    OriginStep(oy, Shift(image.height, k), k);
    HoldsLess(image, Origin(Shift(image.width, k), k), Origin(Shift(image.height, k), k),
              Origin(ox, k) + Pow2(k), Origin(oy, k) + Pow2(k));
  }

  lemma WellSizedReadable(image: Image, k: nat)
    requires WellSized(image)
    ensures Readable(image, k)
  {
    hide Origin;
    ShiftBlocks(image.width, k);
    ShiftBlocks(image.height, k);
    WellSizedHolds(image, Origin(Shift(image.width, k), k), Origin(Shift(image.height, k), k));
  }

  function AverageAt(image: Image, k: nat, ox: nat, oy: nat, c: nat): byte
    requires Readable(image, k) && c < 4 && ox < Shift(image.width, k) && oy < Shift(image.height, k)
  {
    BlockReadable(image, k, ox, oy);
    BlockAverage(image, Origin(ox, k), Origin(oy, k), c, Pow2(k))
  }

  /** The 2^k box-averaged reduction. */
  function Downscaled(image: Image, k: nat): (out: Image)
    requires k == 0 || Readable(image, k)
    ensures WellSized(image) ==> WellSized(out)
  {
    var w, h := Shift(image.width, k), Shift(image.height, k);
    if k == 0 || w == 0 || h == 0 then image
    else Image(w, h, AllAverages(image, k))
  }

  function AllAverages(image: Image, k: nat): (out: seq<byte>)
    requires Readable(image, k) && 0 < Shift(image.width, k) && 0 < Shift(image.height, k)
    ensures |out| == Shift(image.width, k) * Shift(image.height, k) * 4
  {
    var w, h := Shift(image.width, k), Shift(image.height, k);
    seq<byte>(w * h * 4, i requires 0 <= i < w * h * 4 =>
      RowWithinImage(i, w, h);
      AverageAt(image, k, Col(i, w), Row(i, w), i % 4))
  }

  /** Downscaling bounds: each output byte lies between the smallest and the largest
      byte of the source block it stands for. */
  lemma DownscaledWithinBlock(image: Image, k: nat, ox: nat, oy: nat, c: nat, lo: nat, hi: nat)
    requires Readable(image, k) && 0 < k && c < 4 && ox < Shift(image.width, k) && oy < Shift(image.height, k)
    ensures Downscaled(image, k).width == Shift(image.width, k) && Downscaled(image, k).height == Shift(image.height, k)
    ensures Origin(ox, k) + Pow2(k) <= image.width && Origin(oy, k) + Pow2(k) <= image.height
    ensures Holds(image, Origin(ox, k) + Pow2(k), Origin(oy, k) + Pow2(k))
            && Holds(Downscaled(image, k), ox + 1, oy + 1)
    ensures BlockWithin(image, Origin(ox, k), Origin(oy, k), c, Pow2(k), Pow2(k), lo, hi) ==>
              lo <= ByteAt(Downscaled(image, k), ox, oy, c) <= hi
  {
    hide BlockWithin, BlockAverage, ByteAt, Downscaled, Holds, Origin;
    BlockReadable(image, k, ox, oy);
    BlockInside(image.width, k, ox);
    BlockInside(image.height, k, oy);
    OutputByte(image, k, ox, oy, c);
    var x, y := Origin(ox, k), Origin(oy, k);
    if BlockWithin(image, x, y, c, Pow2(k), Pow2(k), lo, hi) {
      BlockAverageBetween(image, x, y, c, Pow2(k), lo, hi);
    }
  }

  /** An output byte is the average of its block. */
  lemma OutputByte(image: Image, k: nat, ox: nat, oy: nat, c: nat)
    requires Readable(image, k) && 0 < k && c < 4 && ox < Shift(image.width, k) && oy < Shift(image.height, k)
    ensures Downscaled(image, k).width == Shift(image.width, k) && Downscaled(image, k).height == Shift(image.height, k)
    ensures Holds(Downscaled(image, k), ox + 1, oy + 1)
    ensures ByteAt(Downscaled(image, k), ox, oy, c) == AverageAt(image, k, ox, oy, c)
  {
    hide AverageAt, Origin;
    var w := Shift(image.width, k);
    ByteAddress(ox, oy, c, w);
    RowMajorBound(ox, oy, w, Shift(image.height, k));
  }

  lemma BlockAverageBetween(image: Image, x: nat, y: nat, c: nat, b: nat, lo: nat, hi: nat)
    requires Holds(image, x + b, y + b) && c < 4 && 0 < b
    requires BlockWithin(image, x, y, c, b, b, lo, hi)
    ensures lo <= BlockAverage(image, x, y, c, b) <= hi
  {
    AverageWithinBlock(image, x, y, c, b, lo, hi);
  }

  // ----- the averaging loops

  /** Where output row o starts. */
  function OutputRow(o: nat, w: nat): nat {
    o * w * 4
  }

  lemma OutputOffset(ox: nat, oy: nat, w: nat)
    ensures (oy * w + ox) * 4 == OutputRow(oy, w) + ox * 4
  {
  }

  lemma OutputRows(o: nat, w: nat, h: nat)
    requires o <= h
    ensures OutputRow(0, w) == 0 && OutputRow(h, w) == w * h * 4
    ensures OutputRow(o, w) + w * 4 == OutputRow(o + 1, w)
    ensures o < h ==> OutputRow(o + 1, w) <= w * h * 4
  {
    Distribute(o, 1, w);
    if o < h {
      MulMonotone(o + 1, h, w);
    }
  }

  method DownscaleImage(src: Image, k: nat) returns (dst: Image)
    requires k == 0 || Readable(src, k)
    ensures dst == Downscaled(src, k)
  {
    hide AllAverages, OutputRow;
    if k == 0 {
      return src;
    }
    var outW, outH := Shift(src.width, k), Shift(src.height, k);
    if outW == 0 || outH == 0 {
      return src;
    }
    var pixels := new byte[outW * outH * 4];
    OutputRows(0, outW, outH);
    for oy := 0 to outH
      invariant OutputRow(oy, outW) <= pixels.Length
      invariant forall i :: 0 <= i < OutputRow(oy, outW) ==> pixels[i] == AllAverages(src, k)[i]
    {
      OutputRows(oy, outW, outH);
      DownscaleRow(src, k, oy, pixels, OutputRow(oy, outW), outW * 4);
    }
    OutputRows(outH, outW, outH);
    assert pixels[..] == AllAverages(src, k);
    return Image(outW, outH, pixels[..]);
  }

  method DownscaleRow(src: Image, k: nat, oy: nat, pixels: array<byte>, start: nat, n: nat)
    requires Readable(src, k) && 0 < Shift(src.width, k) && oy < Shift(src.height, k)
    requires pixels.Length == |AllAverages(src, k)|
    requires start == OutputRow(oy, Shift(src.width, k)) && n == Shift(src.width, k) * 4 && start + n <= pixels.Length
    modifies pixels
    ensures forall i :: 0 <= i < start ==> pixels[i] == old(pixels[i])
    ensures forall i :: start <= i < start + n ==> pixels[i] == AllAverages(src, k)[i]
  {
    hide AllAverages, OutputRow, Readable, Shift;
    var outW := Shift(src.width, k);
    for ox := 0 to outW
      invariant forall i :: 0 <= i < start ==> pixels[i] == old(pixels[i])
      invariant forall i :: start <= i < start + ox * 4 ==> pixels[i] == AllAverages(src, k)[i]
    {
      OutputOffset(ox, oy, outW);
      DownscalePixel(src, k, ox, oy, pixels, start + ox * 4);
    }
  }

  method DownscalePixel(src: Image, k: nat, ox: nat, oy: nat, pixels: array<byte>, off: nat)
    requires Readable(src, k) && ox < Shift(src.width, k) && oy < Shift(src.height, k)
    requires pixels.Length == |AllAverages(src, k)|
    requires off == (oy * Shift(src.width, k) + ox) * 4 && off + 4 <= pixels.Length
    modifies pixels
    ensures forall i :: 0 <= i < off ==> pixels[i] == old(pixels[i])
    ensures forall i :: off <= i < off + 4 ==> pixels[i] == AllAverages(src, k)[i]
  {
    hide AllAverages, BlockSum, Average, BlockArea, Origin;
    var block := Pow2(k);
    BlockReadable(src, k, ox, oy);
    var sum := SumBlock(src, Origin(ox, k), Origin(oy, k), block);
    for c := 0 to 4
      invariant forall i :: 0 <= i < off ==> pixels[i] == old(pixels[i])
      invariant forall i :: off <= i < off + c ==> pixels[i] == AllAverages(src, k)[i]
      modifies pixels
    {
      AverageOfSum(src, k, ox, oy, c, sum[c]);
      pixels[off + c] := Average(sum[c], BlockArea(block));
    }
  }


  lemma AverageOfSum(image: Image, k: nat, ox: nat, oy: nat, c: nat, sum: nat)
    requires Readable(image, k) && c < 4 && ox < Shift(image.width, k) && oy < Shift(image.height, k)
    requires Holds(image, Origin(ox, k) + Pow2(k), Origin(oy, k) + Pow2(k))
    requires sum == BlockSum(image, Origin(ox, k), Origin(oy, k), c, Pow2(k), Pow2(k))
    ensures Average(sum, BlockArea(Pow2(k))) < 256
    ensures var i := (oy * Shift(image.width, k) + ox) * 4 + c;
            0 <= i < |AllAverages(image, k)| && AllAverages(image, k)[i] == Average(sum, BlockArea(Pow2(k)))
  {
    hide BlockSum, AverageAt, AllAverages, Average, Readable, Holds, Origin, BlockArea;
    AverageInPlace(image, k, ox, oy, c);
    AverageMeans(image, k, ox, oy, c);
  }

  lemma AverageInPlace(image: Image, k: nat, ox: nat, oy: nat, c: nat)
    requires Readable(image, k) && c < 4 && ox < Shift(image.width, k) && oy < Shift(image.height, k)
    ensures var i := (oy * Shift(image.width, k) + ox) * 4 + c;
            0 <= i < |AllAverages(image, k)| && AllAverages(image, k)[i] == AverageAt(image, k, ox, oy, c)
  {
    hide AverageAt, Readable, Origin;
    var w := Shift(image.width, k);
    ByteAddress(ox, oy, c, w);
    RowMajorBound(ox, oy, w, Shift(image.height, k));
  }

  lemma AverageMeans(image: Image, k: nat, ox: nat, oy: nat, c: nat)
    requires Readable(image, k) && c < 4 && ox < Shift(image.width, k) && oy < Shift(image.height, k)
    requires Holds(image, Origin(ox, k) + Pow2(k), Origin(oy, k) + Pow2(k))
    ensures AverageAt(image, k, ox, oy, c)
            == Average(BlockSum(image, Origin(ox, k), Origin(oy, k), c, Pow2(k), Pow2(k)), BlockArea(Pow2(k)))
  {
    hide BlockSum, Average, Readable, Holds, Origin, BlockArea;
  }

  /** The four channel sums of one source block. */
  method SumBlock(src: Image, x: nat, y: nat, block: nat) returns (sum: array<nat>)
    requires Holds(src, x + block, y + block)
    ensures fresh(sum) && sum.Length == 4
    ensures forall c :: 0 <= c < 4 ==> sum[c] == BlockSum(src, x, y, c, block, block)
  {
    sum := new nat[4](_ => 0);
    for dy := 0 to block
      invariant forall c :: 0 <= c < 4 ==> sum[c] == BlockSum(src, x, y, c, dy, block)
    {
      HoldsLess(src, x + block, y + block, x + block, y + dy + 1);
      AddRow(src, x, y + dy, block, sum);
    }
  }

  /** Adds one row of the block to the four sums. */
  method AddRow(src: Image, x: nat, y: nat, block: nat, sum: array<nat>)
    requires Holds(src, x + block, y + 1) && sum.Length == 4
    modifies sum
    ensures forall c :: 0 <= c < 4 ==> sum[c] == old(sum[c]) + RowSum(src, x, y, c, block)
  {
    hide ByteAt;
    for dx := 0 to block
      invariant forall c :: 0 <= c < 4 ==> sum[c] == old(sum[c]) + RowSum(src, x, y, c, dx)
    {
      AddPixel(src, x + dx, y, sum);
    }
  }

  method AddPixel(src: Image, x: nat, y: nat, sum: array<nat>)
    requires Holds(src, x + 1, y + 1) && sum.Length == 4
    modifies sum
    ensures forall c :: 0 <= c < 4 ==> sum[c] == old(sum[c]) + ByteAt(src, x, y, c)
  {
    hide ByteAt;
    for c := 0 to 4
      invariant forall j :: 0 <= j < 4 ==> sum[j] == old(sum[j]) + if j < c then ByteAt(src, x, y, j) else 0
    {
      sum[c] := sum[c] + ByteAt(src, x, y, c);
    }
  }
}
