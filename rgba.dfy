/** The expansion of the one-channel atlas into the four-channel image that
    `main` hands to the PNG writer: every texel takes the debug colour where
    the atlas has any coverage, black elsewhere, and the coverage as alpha. */
module RgbaExpansion {
  import opened Bytes
  import opened BakeOptions

  /** The four bytes written for one atlas byte. */
  function Texel(alpha: byte, opt: Options): (t: seq<byte>)
    requires Valid(opt)
    ensures |t| == 4 && t[3] == alpha
    ensures forall ch :: 0 <= ch < 3 ==> t[ch] as int == if alpha == 0 then 0 else opt.debugColor[ch]
  {
    if alpha == 0 then [0, 0, 0, 0]
    else [opt.debugColor[0] as byte, opt.debugColor[1] as byte, opt.debugColor[2] as byte, alpha]
  }

  /** The atlas read row after row, as the `pixels` vector holds it. */
  function RowMajor(pixels: array2<byte>): (a: seq<byte>)
    reads pixels
    ensures |a| == pixels.Length0 * pixels.Length1
  {
    var w := pixels.Length1;
    seq(pixels.Length0 * w, k requires 0 <= k < pixels.Length0 * w reads pixels =>
      PositionInGrid(k, w, pixels.Length0);
      pixels[k / w, k % w])
  }

  /** The image: one texel per atlas byte, in the atlas's order. */
  function Expanded(alphas: seq<byte>, opt: Options): (rgba: seq<byte>)
    requires Valid(opt)
    ensures |rgba| == 4 * |alphas|
  {
    if alphas == [] then []
    else Expanded(alphas[..|alphas| - 1], opt) + Texel(alphas[|alphas| - 1], opt)
  }

  /** Every fourth byte, starting at the fourth: what a reader of the image
      takes as alpha. */
  function AlphaChannel(rgba: seq<byte>): (alphas: seq<byte>)
    ensures |alphas| == |rgba| / 4
  {
    seq(|rgba| / 4, i requires 0 <= i < |rgba| / 4 => rgba[4 * i + 3])
  }

  lemma MulMonotone(a: int, b: int, w: nat)
    requires a <= b
    ensures a * w <= b * w
  {
    assert b * w - a * w == (b - a) * w;
  }

  /** Division by `w` recovers the quotient and remainder of `q * w + r`. */
  lemma DivModUnique(k: int, w: int, q: int, r: int)
    requires w > 0 && 0 <= r < w && k == q * w + r
    ensures k / w == q && k % w == r
  {
    var q0, r0 := k / w, k % w;
    assert (q - q0) * w == r0 - r;
    if q > q0 {
      MulMonotone(1, q - q0, w);
    }
    if q < q0 {
      MulMonotone(1, q0 - q, w);
    }
  }

  /** Row `y` of a `rows` by `w` grid ends where row `y + 1` starts, inside the grid. */
  lemma RowFits(y: int, w: nat, rows: nat)
    requires 0 <= y < rows
    ensures 0 <= y * w && y * w + w == (y + 1) * w <= rows * w
  {
    MulMonotone(y + 1, rows, w);
    MulMonotone(0, y, w);
  }

  /** Offset `k` of a `rows` by `w` grid lies in row `k / w`, column `k % w`. */
  lemma PositionInGrid(k: int, w: nat, rows: nat)
    requires 0 <= k < rows * w
    ensures w > 0 && 0 <= k / w < rows && 0 <= k % w < w
  {
    if w > 0 && k / w >= rows {
      MulMonotone(rows, k / w, w);
    }
  }

  /** Row `y`, column `x` sits at offset `y * w + x` of the row-major atlas. */
  lemma RowMajorAt(pixels: array2<byte>, y: int, x: int)
    requires 0 <= y < pixels.Length0 && 0 <= x < pixels.Length1
    ensures 0 <= y * pixels.Length1 + x < |RowMajor(pixels)|
    ensures RowMajor(pixels)[y * pixels.Length1 + x] == pixels[y, x]
  {
    var w := pixels.Length1;
    var k := y * w + x;
    MulMonotone(y + 1, pixels.Length0, w);
    MulMonotone(0, y, w);
    DivModUnique(k, w, y, x);
  }

  /** Byte `ch` of texel `i` of the image is byte `ch` of `Texel` of atlas byte `i`. */
  lemma {:induction false} ExpandedAt(alphas: seq<byte>, opt: Options, i: int, ch: int)
    requires Valid(opt) && 0 <= i < |alphas| && 0 <= ch < 4
    ensures Expanded(alphas, opt)[4 * i + ch] == Texel(alphas[i], opt)[ch]
  {
    var front := alphas[..|alphas| - 1];
    if i < |alphas| - 1 {
      ExpandedAt(front, opt, i, ch);
    }
  }

  /** The image bytes of texel `i` are `Texel` of the atlas byte `i`. */
  lemma ExpandedTexel(alphas: seq<byte>, opt: Options, i: int)
    requires Valid(opt) && 0 <= i < |alphas|
    ensures Expanded(alphas, opt)[4 * i..4 * i + 4] == Texel(alphas[i], opt)
  {
    var rgba := Expanded(alphas, opt);
    forall ch | 0 <= ch < 4
      ensures rgba[4 * i..4 * i + 4][ch] == Texel(alphas[i], opt)[ch]
    {
      ExpandedAt(alphas, opt, i, ch);
    }
  }

  /** The alpha channel of the image is the atlas itself: no coverage value
      is lost or moved by the expansion. */
  lemma AlphaRoundTrip(alphas: seq<byte>, opt: Options)
    requires Valid(opt)
    ensures AlphaChannel(Expanded(alphas, opt)) == alphas
  {
    var rgba := Expanded(alphas, opt);
    assert |rgba| / 4 == |alphas|;
    forall i | 0 <= i < |alphas|
      ensures AlphaChannel(rgba)[i] == alphas[i]
    {
      ExpandedAt(alphas, opt, i, 3);
    }
  }

  /** A texel is coloured exactly where the atlas has coverage (for a
      colour that is not black), and black where it has none. */
  lemma ColourMarksCoverage(alphas: seq<byte>, opt: Options, i: int)
    requires Valid(opt) && 0 <= i < |alphas|
    ensures var rgba := Expanded(alphas, opt);
      && (alphas[i] == 0 ==> rgba[4 * i] == rgba[4 * i + 1] == rgba[4 * i + 2] == 0)
      && (alphas[i] != 0 ==> forall ch :: 0 <= ch < 3 ==> rgba[4 * i + ch] as int == opt.debugColor[ch])
  {
    ExpandedTexel(alphas, opt, i);
    var rgba := Expanded(alphas, opt);
    assert rgba[4 * i..4 * i + 4][0] == rgba[4 * i];
    assert rgba[4 * i..4 * i + 4][1] == rgba[4 * i + 1];
    assert rgba[4 * i..4 * i + 4][2] == rgba[4 * i + 2];
  }

  /** The four assignments of one texel. */
  method WriteTexel(rgba: array<byte>, dstOffset: int, alpha: byte, opt: Options)
    requires Valid(opt) && 0 <= dstOffset && dstOffset + 4 <= rgba.Length
    modifies rgba
    ensures forall k :: 0 <= k < rgba.Length ==>
      rgba[k] == if dstOffset <= k < dstOffset + 4 then Texel(alpha, opt)[k - dstOffset] else old(rgba[k])
  {
    rgba[dstOffset + 0] := if alpha != 0 then opt.debugColor[0] as byte else 0;
    rgba[dstOffset + 1] := if alpha != 0 then opt.debugColor[1] as byte else 0;
    rgba[dstOffset + 2] := if alpha != 0 then opt.debugColor[2] as byte else 0;
    rgba[dstOffset + 3] := alpha;
  }

  /** The expansion loop of `main`: a fresh buffer of four bytes per atlas
      byte, filled row by row. */
  method ExpandToRgba(pixels: array2<byte>, opt: Options) returns (rgba: array<byte>)
    requires Valid(opt)
    ensures fresh(rgba)
    ensures rgba[..] == Expanded(RowMajor(pixels), opt)
  {
    var width := pixels.Length1;
    var height := pixels.Length0;
    ghost var target := Expanded(RowMajor(pixels), opt);
    rgba := new byte[width * height * 4];
    for y := 0 to height
      invariant y * width <= width * height
      invariant forall k :: 0 <= k < 4 * (y * width) ==> rgba[k] == target[k]
    {
      RowFits(y, width, height);
      ExpandRow(pixels, y, opt, rgba);
    }
  }

  /** One pass of the inner loop: row `y` of the atlas becomes texels
      `y * width` up to `(y + 1) * width` of the image. */
  method ExpandRow(pixels: array2<byte>, y: int, opt: Options, rgba: array<byte>)
    requires Valid(opt) && 0 <= y < pixels.Length0
    requires rgba.Length == pixels.Length1 * pixels.Length0 * 4
    requires forall k :: 0 <= k < 4 * (y * pixels.Length1) ==> rgba[k] == Expanded(RowMajor(pixels), opt)[k]
    modifies rgba
    ensures forall k :: 0 <= k < 4 * ((y + 1) * pixels.Length1) ==> rgba[k] == Expanded(RowMajor(pixels), opt)[k]
  {
    var width := pixels.Length1;
    ghost var alphas := RowMajor(pixels);
    ghost var target := Expanded(alphas, opt);
    ghost var rowStart := y * width;
    RowFits(y, width, pixels.Length0);
    for x := 0 to width
      invariant forall k :: 0 <= k < 4 * (rowStart + x) ==> rgba[k] == target[k]
    {
      var srcOffset := y * width + x;
      var dstOffset := srcOffset * 4;
      var alpha := pixels[y, x];
      RowMajorAt(pixels, y, x);
      WriteTexel(rgba, dstOffset, alpha, opt);
      forall ch | 0 <= ch < 4 {
        ExpandedAt(alphas, opt, srcOffset, ch);
      }
    }
  }
}
