/** Reading a rendered glyph bitmap and turning it into one atlas byte:
    `GetPixel`, the oversample box filter, the alpha stretch or threshold,
    and the debug grid mask. */
module GlyphPixels {
  import opened Bytes
  import opened BakeOptions

  datatype PixelMode = Mono | Gray | OtherMode

  /** An `FT_Bitmap` as rendered: `rows` rows of `pitch` bytes each. */
  datatype Bitmap = Bitmap(rows: nat, width: nat, pitch: nat, mode: PixelMode, buffer: seq<byte>)

  /** The buffer holds every row, and a row holds every pixel of its mode
      (one bit per pixel for `Mono`, one byte for `Gray`). */
  predicate WellFormed(bm: Bitmap) {
    && bm.rows * bm.pitch <= |bm.buffer|
    && (bm.mode == Mono ==> (bm.width + 7) / 8 <= bm.pitch)
    && (bm.mode == Gray ==> bm.width <= bm.pitch)
  }

  lemma RowIndexInBuffer(bm: Bitmap, x: nat, y: nat)
    requires WellFormed(bm) && y < bm.rows && x < bm.pitch
    ensures y * bm.pitch + x < |bm.buffer|
  {
    assert (y + 1) * bm.pitch <= bm.rows * bm.pitch;
  }

  /** Bit `7 - n` of `b`: the bit `0x80 >> n` selects. */
  predicate MonoBit(b: byte, n: nat)
    requires n < 8
  {
    (b as int / Pow2(7 - n)) % 2 == 1
  }

  /** `GetPixel`: the glyph's coverage at (x, y), 0 outside the bitmap. */
  function GetPixel(bm: Bitmap, x: int, y: int): (p: int)
    requires WellFormed(bm)
    ensures 0 <= p <= 255
    ensures !(0 <= x < bm.width && 0 <= y < bm.rows) ==> p == 0
    ensures bm.mode == Mono ==> p == 0 || p == 255
    ensures bm.mode == OtherMode ==> p == 0
  {
    if x < 0 || x >= bm.width || y < 0 || y >= bm.rows then 0
    else match bm.mode
      case Mono =>
        RowIndexInBuffer(bm, x / 8, y);
        if MonoBit(bm.buffer[y * bm.pitch + x / 8], x % 8) then 255 else 0
      case Gray =>
        RowIndexInBuffer(bm, x, y);
        bm.buffer[y * bm.pitch + x] as int
      case OtherMode => 0
  }

  /** A gray bitmap reads back its own bytes inside its bounds. */
  lemma GetPixelGray(bm: Bitmap, x: nat, y: nat)
    requires WellFormed(bm) && bm.mode == Gray && x < bm.width && y < bm.rows
    ensures y * bm.pitch + x < |bm.buffer|
    ensures GetPixel(bm, x, y) == bm.buffer[y * bm.pitch + x] as int
  {
    RowIndexInBuffer(bm, x, y);
  }

  /** Sum of the first `n` pixels of row `y * os + yy` of the `os`-wide
      block under output column `x`. */
  function RowSum(bm: Bitmap, x: int, y: int, os: nat, yy: nat, n: nat): (s: int)
    requires WellFormed(bm)
    ensures 0 <= s <= 255 * n
  {
    if n == 0 then 0 else RowSum(bm, x, y, os, yy, n - 1) + GetPixel(bm, x * os + n - 1, y * os + yy)
  }

  /** Sum of the first `m` rows of the `os` by `os` block under output pixel (x, y). */
  function BlockSum(bm: Bitmap, x: int, y: int, os: nat, m: nat): (s: int)
    requires WellFormed(bm)
    ensures 0 <= s <= 255 * os * m
  {
    if m == 0 then 0
    else
      var s := BlockSum(bm, x, y, os, m - 1) + RowSum(bm, x, y, os, m - 1, os);
      BoundStep(os, m);
      s
  }

  lemma BoundStep(os: nat, m: nat)
    requires m >= 1
    ensures 255 * os * m == 255 * os * (m - 1) + 255 * os
  {
    var k := 255 * os;
    assert k * m == k * (m - 1) + k;
  }

  lemma QuotientBelow256(a: int, m: int)
    requires m >= 1 && 0 <= a < 256 * m
    ensures 0 <= a / m <= 255
  {
  }

  /** The rounded block average of a sum of at most `os * os` bytes is a byte. */
  lemma RoundedAverageIsByte(s: int, os: int)
    requires os >= 1 && 0 <= s <= 255 * os * os
    ensures 0 <= (s + os / 2) / (os * os) <= 255
  {
    var m := os * os;
    assert m >= os;
    QuotientBelow256(s + os / 2, m);
  }

  /** The box-filtered value of output pixel (x, y): the block sum, rounded
      with `os / 2`, divided by `os * os`; always a byte. */
  function Downsampled(bm: Bitmap, x: int, y: int, os: int): (p: int)
    requires WellFormed(bm) && os >= 1
    ensures 0 <= p <= 255
  {
    var s := BlockSum(bm, x, y, os, os);
    RoundedAverageIsByte(s, os);
    (s + os / 2) / (os * os)
  }

  /** The `yy`/`xx` loops of the compositor and the rounding division. */
  method SamplePixel(bm: Bitmap, x: int, y: int, os: int) returns (pixel: int)
    requires WellFormed(bm) && os >= 1
    ensures pixel == Downsampled(bm, x, y, os)
    ensures 0 <= pixel <= 255
  {
    pixel := 0;
    var yy := 0;
    while yy < os
      invariant 0 <= yy <= os
      invariant pixel == BlockSum(bm, x, y, os, yy)
    {
      var xx := 0;
      while xx < os
        invariant 0 <= xx <= os
        invariant pixel == BlockSum(bm, x, y, os, yy) + RowSum(bm, x, y, os, yy, xx)
      {
        pixel := pixel + GetPixel(bm, x * os + xx, y * os + yy);
        xx := xx + 1;
      }
      yy := yy + 1;
    }
    pixel := (pixel + os / 2) / (os * os);
  }

  /** With no oversampling the filter is the identity. */
  lemma DownsampledNoOversample(bm: Bitmap, x: int, y: int)
    requires WellFormed(bm)
    ensures Downsampled(bm, x, y, 1) == GetPixel(bm, x, y)
  {
    assert BlockSum(bm, x, y, 1, 1) == RowSum(bm, x, y, 1, 0, 1);
  }

  /** A block lying wholly outside the bitmap filters to 0. */
  lemma {:induction false} BlockOutsideIsZero(bm: Bitmap, x: int, y: int, os: int, m: nat)
    requires WellFormed(bm) && os >= 1
    requires y * os >= bm.rows
    ensures BlockSum(bm, x, y, os, m) == 0
  {
    if m > 0 {
      BlockOutsideIsZero(bm, x, y, os, m - 1);
      RowOutsideIsZero(bm, x, y, os, m - 1, os);
    }
  }

  lemma {:induction false} RowOutsideIsZero(bm: Bitmap, x: int, y: int, os: int, yy: nat, n: nat)
    requires WellFormed(bm) && os >= 1
    requires y * os + yy >= bm.rows
    ensures RowSum(bm, x, y, os, yy, n) == 0
  {
    if n > 0 {
      RowOutsideIsZero(bm, x, y, os, yy, n - 1);
    }
  }

  /** The alpha stretch: with `alphaMax - alphaMin > 1`, values are mapped
      linearly from [alphaMin, alphaMax] onto [0, 255] and clamped;
      otherwise they are thresholded at `alphaMin`. */
  function Remap(p: int, alphaMin: int, alphaMax: int): (q: int)
    requires 0 <= alphaMin <= 255
    ensures 0 <= q <= 255
  {
    var range := alphaMax - alphaMin;
    if range > 1 then Min(255, Max(0, p - alphaMin) * 255 / range)
    else if p > alphaMin then 255 else 0
  }

  function Min(a: int, b: int): int { if a <= b then a else b }

  function Max(a: int, b: int): int { if a >= b then a else b }

  lemma DivMonotone(a: int, b: int, d: int)
    requires 0 <= a <= b && d > 0
    ensures a / d <= b / d
  {
    assert d * (a / d) <= a <= b < d * (b / d + 1);
    MulCancel(d, a / d, b / d + 1);
  }

  lemma MulCancel(d: int, x: int, y: int)
    requires d > 0 && d * x < d * y
    ensures x < y
  {
  }

  /** The stretch keeps the order of coverage values. */
  lemma RemapMonotone(p: int, q: int, alphaMin: int, alphaMax: int)
    requires 0 <= alphaMin <= 255 && p <= q
    ensures Remap(p, alphaMin, alphaMax) <= Remap(q, alphaMin, alphaMax)
  {
    var range := alphaMax - alphaMin;
    if range > 1 {
      DivMonotone(Max(0, p - alphaMin) * 255, Max(0, q - alphaMin) * 255, range);
    }
  }

  /** The stretch sends `alphaMin` and below to 0 and `alphaMax` and above to 255. */
  lemma RemapEnds(p: int, alphaMin: int, alphaMax: int)
    requires 0 <= alphaMin <= 255 && alphaMax - alphaMin > 1
    ensures p <= alphaMin ==> Remap(p, alphaMin, alphaMax) == 0
    ensures p >= alphaMax ==> Remap(p, alphaMin, alphaMax) == 255
  {
    var range := alphaMax - alphaMin;
    if p >= alphaMax {
      assert (p - alphaMin) * 255 >= range * 255;
      DivMonotone(range * 255, (p - alphaMin) * 255, range);
    }
  }

  /** With a range of at most 1 the remap is a threshold: full coverage
      above `alphaMin`, none at or below it. */
  lemma RemapThreshold(p: int, alphaMin: int, alphaMax: int)
    requires 0 <= alphaMin <= 255 && alphaMax - alphaMin <= 1
    ensures Remap(p, alphaMin, alphaMax) == 0 || Remap(p, alphaMin, alphaMax) == 255
    ensures Remap(p, alphaMin, alphaMax) == 255 <==> p > alphaMin
  {
  }

  /** With the default bounds 0 and 255 the stretch is the identity on bytes. */
  lemma RemapDefaultIsIdentity(p: int)
    requires 0 <= p <= 255
    ensures Remap(p, 0, 255) == p
  {
  }

  /** The debug grid mask of request `k`: 0x66, 0x44, 0x88 in turn. */
  function GridMask(k: nat): (m: nat)
    ensures m < 256
  {
    [0x66, 0x44, 0x88][k % 3]
  }

  /** The final byte of one atlas pixel: filter, stretch, then the grid mask
      of request `k` when the grid is on. */
  function Shade(bm: Bitmap, x: int, y: int, k: nat, opt: Options): (b: byte)
    requires WellFormed(bm) && Valid(opt)
  {
    var p := Remap(Downsampled(bm, x, y, opt.oversample), opt.alphaMin, opt.alphaMax);
    if opt.showGrid then
      OrOfBytes(p, GridMask(k));
      Or(p, GridMask(k)) as byte
    else p as byte
  }

  /** The grid only adds bits: a shaded pixel is never darker than its
      stretched value, nor than its mask. */
  lemma ShadeWithGrid(bm: Bitmap, x: int, y: int, k: nat, opt: Options)
    requires WellFormed(bm) && Valid(opt)
    ensures Shade(bm, x, y, k, opt) as int >= Remap(Downsampled(bm, x, y, opt.oversample), opt.alphaMin, opt.alphaMax)
    ensures opt.showGrid ==> Shade(bm, x, y, k, opt) as int >= GridMask(k)
  {
    var p := Remap(Downsampled(bm, x, y, opt.oversample), opt.alphaMin, opt.alphaMax);
    OrOfBytes(p, GridMask(k));
  }
}
