/** Rows of packed BGRA bytes: addressing, blitting and cropping. */
module Raster {
  import opened Types
  import opened Geometry

  /** A decoded rectangle ready to be blitted. */
  datatype Patch = Patch(rect: Rect, bytes: seq<byte>)

  predicate WellSized(image: Image) {
    |image.pixels| == image.width * image.height * 4
  }

  function Zeros(n: nat): (z: seq<byte>)
    ensures |z| == n && forall i :: 0 <= i < n ==> z[i] == 0
  {
    seq(n, i => 0)
  }

  /** Copies a run of bytes into a buffer. */
  method CopyBytes(dst: array<byte>, off: nat, row: seq<byte>)
    requires off + |row| <= dst.Length
    modifies dst
    ensures forall i :: 0 <= i < dst.Length ==>
              dst[i] == if off <= i < off + |row| then row[i - off] else old(dst[i])
    ensures dst[..off + |row|] == old(dst[..off]) + row
  {
    forall i | 0 <= i < |row| {
      dst[off + i] := row[i];
    }
  }

  // ----- addressing: byte i of a display belongs to pixel (Col, Row)

  function Col(i: nat, width: nat): nat
    requires width > 0
  {
    i / 4 % width
  }

  function Row(i: nat, width: nat): nat
    requires width > 0
  {
    i / 4 / width
  }

  predicate Hits(r: Rect, i: nat, width: nat)
    requires width > 0
  {
    Inside(r, Col(i, width), Row(i, width))
  }

  /** Where display byte i sits in r's own packed bytes. */
  function Local(r: Rect, i: nat, width: nat): (j: nat)
    requires width > 0 && Hits(r, i, width)
    ensures j < Area(r) * 4
  {
    var y, x := Row(i, width) - r.y, Col(i, width) - r.x;
    RowMajorBound(x, y, r.w, r.h);
    (y * r.w + x) * 4 + i % 4
  }

  /** The display byte that r's own byte j stands for. */
  function Global(r: Rect, j: nat, width: nat): nat
    requires r.w > 0
  {
    ((r.y + Row(j, r.w)) * width + r.x + Col(j, r.w)) * 4 + j % 4
  }

  lemma RowMajorBound(x: nat, y: nat, w: nat, h: nat)
    requires x < w && y < h
    ensures y * w + x < w * h
  {
    MulStep(y, h, w);
  }

  lemma Distribute(a: int, b: int, w: int)
    ensures (a + b) * w == a * w + b * w
  {
  }

  lemma {:induction false} MulStep(q: nat, q': nat, w: nat)
    requires q < q'
    ensures q' * w >= q * w + w
    decreases q'
  {
    Distribute(q' - 1, 1, w);
    if q + 1 < q' {
      MulStep(q, q' - 1, w);
    }
  }

  lemma MulMonotone(a: nat, b: nat, n: nat)
    requires a <= b
    ensures a * n <= b * n
  {
    if a < b {
      MulStep(a, b, n);
    }
  }

  /** Floor division, as two inequalities. */
  lemma Floor(p: nat, s: nat)
    requires 0 < s
    ensures 0 <= p / s && p / s * s <= p < p / s * s + s
  {
  }

  lemma QuotientAtLeast(p: nat, s: nat, q: nat)
    requires 0 < s && q * s <= p
    ensures q <= p / s
  {
    Floor(p, s);
    if p / s < q {
      MulStep(p / s, q, s);
    }
  }

  lemma RowMajor(x: nat, y: nat, w: nat)
    requires x < w
    ensures (y * w + x) / w == y && (y * w + x) % w == x
  {
    var p := y * w + x;
    if y < p / w {
      MulStep(y, p / w, w);
    } else if p / w < y {
      MulStep(p / w, y, w);
    }
  }

  lemma ByteAddress(x: nat, y: nat, c: nat, w: nat)
    requires x < w && c < 4
    ensures Col((y * w + x) * 4 + c, w) == x
    ensures Row((y * w + x) * 4 + c, w) == y
    ensures ((y * w + x) * 4 + c) % 4 == c
  {
    RowMajor(x, y, w);
  }

  lemma RowWithinImage(i: nat, width: nat, height: nat)
    requires width > 0 && i < width * height * 4
    ensures Row(i, width) < height && Col(i, width) < width
  {
    var p := i / 4;
    assert p < width * height;
    assert p == (p / width) * width + p % width;
    if p / width >= height {
      assert (p / width - height) * width >= 0;
    }
  }

  lemma GlobalThenLocal(r: Rect, j: nat, width: nat, height: nat)
    requires InBounds(r, width, height) && j < Area(r) * 4
    ensures Global(r, j, width) < width * height * 4
    ensures Hits(r, Global(r, j, width), width)
    ensures Local(r, Global(r, j, width), width) == j
  {
    RowWithinImage(j, r.w, r.h);
    var y, x := Row(j, r.w), Col(j, r.w);
    ByteAddress(r.x + x, r.y + y, j % 4, width);
    RowMajorBound(r.x + x, r.y + y, width, height);
    assert j / 4 == y * r.w + x;
  }

  lemma LocalThenGlobal(r: Rect, i: nat, width: nat)
    requires width > 0 && Hits(r, i, width)
    ensures Global(r, Local(r, i, width), width) == i
  {
    var y, x := Row(i, width) - r.y, Col(i, width) - r.x;
    ByteAddress(x, y, i % 4, r.w);
    assert i / 4 == Row(i, width) * width + Col(i, width);
  }

  // ----- cropping and blitting

  /** The packed bytes of one rectangle of an image. */
  function Crop(image: Image, r: Rect): (bytes: seq<byte>)
    requires WellSized(image) && InBounds(r, image.width, image.height)
    ensures |bytes| == Area(r) * 4
  {
    seq(Area(r) * 4, j requires 0 <= j < Area(r) * 4 =>
      GlobalThenLocal(r, j, image.width, image.height);
      image.pixels[Global(r, j, image.width)])
  }

  function Blit(buf: seq<byte>, p: Patch, width: nat): (out: seq<byte>)
    requires width > 0 && |p.bytes| == Area(p.rect) * 4
    ensures |out| == |buf|
  {
    seq(|buf|, i requires 0 <= i < |buf| =>
      if Hits(p.rect, i, width) then p.bytes[Local(p.rect, i, width)] else buf[i])
  }

  /** A rectangle cropped from an image puts exactly that image's bytes back. */
  lemma BlitOfCrop(image: Image, r: Rect, i: nat)
    requires WellSized(image) && InBounds(r, image.width, image.height)
    requires i < |image.pixels| && Hits(r, i, image.width)
    ensures Crop(image, r)[Local(r, i, image.width)] == image.pixels[i]
  {
    LocalThenGlobal(r, i, image.width);
  }

  /** Two crops agree exactly when the images agree on every byte of the rectangle. */
  lemma EqualCrops(a: Image, b: Image, r: Rect)
    requires WellSized(a) && WellSized(b) && a.width == b.width && a.height == b.height
    requires InBounds(r, a.width, a.height)
    ensures Crop(a, r) == Crop(b, r)
            <==> forall i :: 0 <= i < |a.pixels| && Hits(r, i, a.width) ==> a.pixels[i] == b.pixels[i]
  {
    if Crop(a, r) == Crop(b, r) {
      forall i | 0 <= i < |a.pixels| && Hits(r, i, a.width)
        ensures a.pixels[i] == b.pixels[i]
      {
        BlitOfCrop(a, r, i);
        BlitOfCrop(b, r, i);
      }
    }
    if forall i :: 0 <= i < |a.pixels| && Hits(r, i, a.width) ==> a.pixels[i] == b.pixels[i] {
      forall j | 0 <= j < Area(r) * 4
        ensures Crop(a, r)[j] == Crop(b, r)[j]
      {
        GlobalThenLocal(r, j, a.width, a.height);
      }
    }
  }

  /** Which positions of a row-major display fall in w places of row y from column x. */
  lemma SpanOfRow(p: nat, x: nat, y: nat, w: nat, width: nat)
    requires 0 < width && x + w <= width
    ensures y * width + x <= p < y * width + x + w <==> p / width == y && x <= p % width < x + w
    ensures p / width == y ==> p == y * width + p % width
  {
    var row := p / width;
    assert p == row * width + p % width;
    if row < y {
      MulStep(row, y, width);
    } else if y < row {
      MulStep(y, row, width);
    }
  }

  /** Row y of a rectangle is one contiguous run of the display's bytes. */
  lemma RowSpan(r: Rect, y: nat, width: nat, height: nat, i: nat)
    requires InBounds(r, width, height) && y < r.h
    ensures var off := ((r.y + y) * width + r.x) * 4;
            (off <= i < off + r.w * 4 <==> Hits(Rect(r.x, r.y + y, r.w, 1), i, width))
    ensures var off := ((r.y + y) * width + r.x) * 4;
            Hits(Rect(r.x, r.y + y, r.w, 1), i, width) ==>
              Hits(r, i, width) && Local(r, i, width) == y * (r.w * 4) + (i - off)
    ensures ((r.y + y) * width + r.x) * 4 + r.w * 4 <= width * height * 4
    ensures y * (r.w * 4) + r.w * 4 <= Area(r) * 4
  {
    hide Hits, Local, Area;
    RowSpanHits(r, y, width, i);
    if Hits(Rect(r.x, r.y + y, r.w, 1), i, width) {
      RowSpanLocal(r, y, width, i);
    }
    RowSpanBounds(r, y, width, height);
  }

  lemma RowSpanHits(r: Rect, y: nat, width: nat, i: nat)
    requires 0 < r.w && r.x + r.w <= width && y < r.h
    ensures var off := ((r.y + y) * width + r.x) * 4;
            (off <= i < off + r.w * 4 <==> Hits(Rect(r.x, r.y + y, r.w, 1), i, width))
  {
    SpanOfRow(i / 4, r.x, r.y + y, r.w, width);
  }

  lemma RowSpanLocal(r: Rect, y: nat, width: nat, i: nat)
    requires 0 < r.w && r.x + r.w <= width && y < r.h
    requires Hits(Rect(r.x, r.y + y, r.w, 1), i, width)
    ensures Hits(r, i, width)
    ensures Local(r, i, width) == y * (r.w * 4) + (i - ((r.y + y) * width + r.x) * 4)
  {
    SpanOfRow(i / 4, r.x, r.y + y, r.w, width);
  }

  lemma RowSpanBounds(r: Rect, y: nat, width: nat, height: nat)
    requires InBounds(r, width, height) && y < r.h
    ensures ((r.y + y) * width + r.x) * 4 + r.w * 4 <= width * height * 4
    ensures y * (r.w * 4) + r.w * 4 <= Area(r) * 4
  {
    RowMajorBound(r.x + r.w - 1, r.y + y, width, height);
    RowMajorBound(r.w - 1, y, r.w, r.h);
  }

  function RowOffset(r: Rect, y: nat, width: nat): nat { ((r.y + y) * width + r.x) * 4 }

  /** Row y of a crop is the matching run of the image's bytes. */
  lemma CropRow(image: Image, r: Rect, y: nat)
    requires WellSized(image) && InBounds(r, image.width, image.height) && y < r.h
    ensures RowOffset(r, y, image.width) + r.w * 4 <= |image.pixels|
    ensures y * (r.w * 4) + r.w * 4 <= Area(r) * 4
    ensures Crop(image, r)[y * (r.w * 4)..y * (r.w * 4) + r.w * 4]
            == image.pixels[RowOffset(r, y, image.width)..RowOffset(r, y, image.width) + r.w * 4]
  {
    var off, src, n := RowOffset(r, y, image.width), y * (r.w * 4), r.w * 4;
    RowSpan(r, y, image.width, image.height, off);
    var a, b := Crop(image, r)[src..src + n], image.pixels[off..off + n];
    forall j | 0 <= j < n
      ensures a[j] == b[j]
    {
      RowSpan(r, y, image.width, image.height, off + j);
      BlitOfCrop(image, r, off + j);
    }
  }
}
