/** What the v1 reduction computes: every byte of a block counts once, nothing else counts, and
    the quotient is rounded to the nearest, halves up. */
module Averaging {
  import opened Types
  import opened Raster
  import opened Downscale

  // ----- powers and shifts

  lemma {:induction false} PowersMultiply(a: nat, b: nat)
    ensures Pow2(0) == 1 && Pow2(1) == 2
    ensures Pow2(a + b) == Pow2(a) * Pow2(b)
    decreases b
  {
    assert Pow2(1) == 2 * Pow2(0);
    if b > 0 {
      PowersMultiply(a, b - 1);
      assert Pow2(a + b) == 2 * Pow2(a + (b - 1));
      Twice(Pow2(a), Pow2(b - 1));
    }
  }

  /** A shift by k is the quotient by 2^k. */
  lemma {:induction false} ShiftIsQuotient(n: nat, k: nat)
    ensures Shift(n, k) * Pow2(k) <= n < (Shift(n, k) + 1) * Pow2(k)
  {
    if k > 0 {
      ShiftIsQuotient(n, k - 1);
      var q, p := Shift(n, k - 1), Pow2(k - 1);
      Twice(q / 2, p);
      Twice(q / 2 + 1, p);
      MulMonotone(q / 2 * 2, q, p);
      MulMonotone(q + 1, (q / 2 + 1) * 2, p);
    }
  }

  // ----- what is summed

  /** Where channel c of column x of row y lies. */
  function Address(x: nat, y: nat, c: nat, width: nat): nat {
    (y * width + x) * 4 + c
  }

  lemma AddressesDiffer(x: nat, y: nat, c: nat, x': nat, y': nat, c': nat, width: nat)
    requires x < width && x' < width && c < 4 && c' < 4
    requires Address(x, y, c, width) == Address(x', y', c', width)
    ensures x == x' && y == y' && c == c'
  {
    ByteAddress(x, y, c, width);
    ByteAddress(x', y', c', width);
  }

  /** The image with one byte replaced. */
  function With(image: Image, i: nat, v: byte): Image
    requires i < |image.pixels|
  {
    image.(pixels := image.pixels[i := v])
  }

  /** By how much a sum over columns x to x+w and rows y to y+h of channel c grows. */
  function Change(image: Image, px: nat, py: nat, ch: nat, v: byte, x: nat, y: nat, c: nat, w: nat, h: nat): int
    requires Address(px, py, ch, image.width) < |image.pixels|
  {
    if ch == c && x <= px < x + w && y <= py < y + h then v - image.pixels[Address(px, py, ch, image.width)] else 0
  }

  lemma ByteChanges(image: Image, px: nat, py: nat, ch: nat, v: byte, x: nat, y: nat, c: nat)
    requires px < image.width && ch < 4 && c < 4 && Address(px, py, ch, image.width) < |image.pixels|
    requires Downscale.Holds(image, x + 1, y + 1)
    ensures var b := With(image, Address(px, py, ch, image.width), v);
            && Downscale.Holds(b, x + 1, y + 1)
            && ByteAt(b, x, y, c) - ByteAt(image, x, y, c) == Change(image, px, py, ch, v, x, y, c, 1, 1)
  {
    if Address(px, py, ch, image.width) == Address(x, y, c, image.width) {
      AddressesDiffer(px, py, ch, x, y, c, image.width);
    }
  }

  lemma {:induction false} RowChanges(image: Image, px: nat, py: nat, ch: nat, v: byte, x: nat, y: nat, c: nat, n: nat)
    requires px < image.width && ch < 4 && c < 4 && Address(px, py, ch, image.width) < |image.pixels|
    requires Downscale.Holds(image, x + n, y + 1)
    ensures var b := With(image, Address(px, py, ch, image.width), v);
            && Downscale.Holds(b, x + n, y + 1)
            && RowSum(b, x, y, c, n) - RowSum(image, x, y, c, n) == Change(image, px, py, ch, v, x, y, c, n, 1)
    decreases n
  {
    hide ByteAt, Address;
    if n > 0 {
      HoldsLess(image, x + n, y + 1, x + n - 1, y + 1);
      RowChanges(image, px, py, ch, v, x, y, c, n - 1);
      ByteChanges(image, px, py, ch, v, x + n - 1, y, c);
    }
  }

  /** Every byte counts: replacing any one byte of an image, wherever it lies, changes a block's
      sum of its channel by the difference if it lies in the block and by nothing otherwise. */
  lemma {:induction false} OneByteCounts(image: Image, px: nat, py: nat, ch: nat, v: byte,
                                         x: nat, y: nat, c: nat, n: nat, block: nat)
    requires px < image.width && ch < 4 && c < 4 && Address(px, py, ch, image.width) < |image.pixels|
    requires Downscale.Holds(image, x + block, y + n)
    ensures var b := With(image, Address(px, py, ch, image.width), v);
            && Downscale.Holds(b, x + block, y + n)
            && BlockSum(b, x, y, c, n, block) - BlockSum(image, x, y, c, n, block)
               == Change(image, px, py, ch, v, x, y, c, block, n)
    decreases n
  {
    hide RowSum, Address;
    if n > 0 {
      HoldsLess(image, x + block, y + n, x + block, y + n - 1);
      OneByteCounts(image, px, py, ch, v, x, y, c, n - 1, block);
      RowChanges(image, px, py, ch, v, x, y + n - 1, c, block);
    }
  }

  lemma {:induction false} BlackRow(image: Image, x: nat, y: nat, c: nat, n: nat)
    requires Downscale.Holds(image, x + n, y + 1) && c < 4
    requires forall i :: 0 <= i < |image.pixels| ==> image.pixels[i] == 0
    ensures RowSum(image, x, y, c, n) == 0
  {
    if n > 0 {
      BlackRow(image, x, y, c, n - 1);
    }
  }

  /** Nothing else counts: a block of an image of zeros sums to zero. */
  lemma {:induction false} BlackBlock(image: Image, x: nat, y: nat, c: nat, n: nat, block: nat)
    requires Downscale.Holds(image, x + block, y + n) && c < 4
    requires forall i :: 0 <= i < |image.pixels| ==> image.pixels[i] == 0
    ensures BlockSum(image, x, y, c, n, block) == 0
  {
    if n > 0 {
      HoldsLess(image, x + block, y + n, x + block, y + n - 1);
      BlackBlock(image, x, y, c, n - 1, block);
      BlackRow(image, x, y + n - 1, c, block);
    }
  }

  // ----- what comes out

  /** q is sum / area rounded to the nearest, halves up. */
  predicate RoundsTo(sum: nat, area: nat, q: nat) {
    2 * (area * q) - area <= 2 * sum < 2 * (area * q) + area
  }

  lemma AverageRounds(sum: nat, area: nat)
    requires 0 < area
    ensures RoundsTo(sum, area, Average(sum, area))
  {
    Floor(sum + area / 2, area);
    var q := Average(sum, area);
    assert area * q == q * area;
  }

  function Times(a: nat, b: nat): nat { a * b }

  /** The reduction: for every image and factor with anything left, each output byte is the
      rounded average of channel c over the 2^k by 2^k block whose first pixel is 2^k times as
      far from the corner. */
  lemma ReducedExactly(image: Image, k: nat, ox: nat, oy: nat, c: nat)
    requires Readable(image, k) && 0 < k && c < 4 && ox < Shift(image.width, k) && oy < Shift(image.height, k)
    ensures var out, block := Downscaled(image, k), Pow2(k);
            && out.width == Shift(image.width, k) && out.height == Shift(image.height, k)
            && |out.pixels| == out.width * out.height * 4
            && Address(ox, oy, c, out.width) < |out.pixels|
            && Downscale.Holds(image, Times(ox, block) + block, Times(oy, block) + block)
            && RoundsTo(BlockSum(image, Times(ox, block), Times(oy, block), c, block, block), Times(block, block),
                        out.pixels[Address(ox, oy, c, out.width)])
  {
    hide BlockSum, Average, Readable, BlockArea, RoundsTo, AllAverages, Shift, Downscale.Holds;
    var block := Pow2(k);
    BlockReadable(image, k, ox, oy);
    AverageInPlace(image, k, ox, oy, c);
    AverageMeans(image, k, ox, oy, c);
    assert BlockArea(block) == Times(block, block) by { AreaOfBlock(block); }
    AverageRounds(BlockSum(image, Times(ox, block), Times(oy, block), c, block, block), BlockArea(block));
  }

  lemma AreaOfBlock(block: nat)
    ensures BlockArea(block) == block * block
  {
  }

  /** With nothing left, or no factor, the image is passed on. */
  lemma NothingToReduce(image: Image, k: nat)
    requires k == 0 || (Readable(image, k) && (image.width < Pow2(k) || image.height < Pow2(k)))
    ensures Downscaled(image, k) == image
  {
    hide AllAverages;
    ShiftIsQuotient(image.width, k);
    ShiftIsQuotient(image.height, k);
    if k > 0 {
      if 0 < Shift(image.width, k) {
        MulMonotone(1, Shift(image.width, k), Pow2(k));
      }
      if 0 < Shift(image.height, k) {
        MulMonotone(1, Shift(image.height, k), Pow2(k));
      }
    }
  }
}
