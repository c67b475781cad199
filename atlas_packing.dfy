/** The request-sizing and atlas-growth half of `PackFontRanges`: one
    rectangle request per code point, sized from the glyph's 26.6 metrics,
    and the search for an atlas size the rectangle packer can fill. The
    packer itself is a parameter: only its placements and `was_packed`
    flags are seen. */
module AtlasPacking {
  import opened Bytes
  import opened BakeOptions
  import opened CodepointRanges
  import opened GlyphPixels

  /** What FreeType yields for a code point that has a glyph: whether
      `FT_Load_Glyph` succeeds, the 26.6 metrics width and height, the
      rendered bitmap and its `bitmap_top`. */
  datatype Glyph = Glyph(loadOk: bool, metricsWidth: int, metricsHeight: int, bitmapTop: int, bitmap: Bitmap)

  /** A sized face: its 26.6 ascender, and a glyph for each code point with a
      nonzero `FT_Get_Char_Index`. */
  datatype Face = Face(ascender: int, glyphs: map<int, Glyph>)

  /** `stbtt_pack_range` as `main` fills it: a first code point and a count. */
  datatype PackRange = PackRange(first: int, numChars: nat)

  /** The code points of one pack range, in order. */
  function RangeCodepoints(r: PackRange): (cps: seq<int>)
    ensures |cps| == r.numChars
    ensures forall j :: 0 <= j < |cps| ==> cps[j] == r.first + j
  {
    seq(r.numChars, j => r.first + j)
  }

  /** The code point of every request, range after range. */
  function Codepoints(ranges: seq<PackRange>): seq<int> {
    if ranges == [] then []
    else Codepoints(ranges[..|ranges| - 1]) + RangeCodepoints(ranges[|ranges| - 1])
  }

  lemma CodepointsStep(ranges: seq<PackRange>, i: nat)
    requires i < |ranges|
    ensures Codepoints(ranges[..i + 1]) == Codepoints(ranges[..i]) + RangeCodepoints(ranges[i])
  {
    assert ranges[..i + 1][..i] == ranges[..i];
  }

  /** Requests are laid out positionally: offset `j` of range `i` is request
      `|Codepoints(ranges[..i])| + j`, for code point `first + j`. */
  lemma {:induction false} CodepointAt(ranges: seq<PackRange>, i: nat, j: nat)
    requires i < |ranges| && j < ranges[i].numChars
    ensures |Codepoints(ranges[..i])| + j < |Codepoints(ranges)|
    ensures Codepoints(ranges)[|Codepoints(ranges[..i])| + j] == ranges[i].first + j
    decreases |ranges|
  {
    var n := |ranges|;
    var init := ranges[..n - 1];
    if i == n - 1 {
      assert init == ranges[..i];
    } else {
      CodepointAt(init, i, j);
      assert init[..i] == ranges[..i];
    }
  }

  /** The `num_chars` loop: the number of requests. */
  method CountChars(ranges: seq<PackRange>) returns (numChars: nat)
    ensures numChars == |Codepoints(ranges)|
  {
    numChars := 0;
    for i := 0 to |ranges|
      invariant numChars == |Codepoints(ranges[..i])|
    {
      CodepointsStep(ranges, i);
      numChars := numChars + ranges[i].numChars;
    }
    assert ranges[..|ranges|] == ranges;
  }

  /** `main`'s pack ranges: one per coalesced range, `end - start + 1` long. */
  function PackRangesOf(rs: seq<Range>): (prs: seq<PackRange>)
    requires forall k :: 0 <= k < |rs| ==> rs[k].start <= rs[k].end
    ensures |prs| == |rs|
    ensures forall k :: 0 <= k < |rs| ==> RangeCodepoints(prs[k]) == rs[k].Expand()
  {
    seq(|rs|, k requires 0 <= k < |rs| => PackRange(rs[k].start, rs[k].end - rs[k].start + 1))
  }

  /** The requests of the coalesced ranges are exactly the covered code points. */
  lemma {:induction false} RequestsCoverRanges(rs: seq<Range>, v: int)
    requires forall k :: 0 <= k < |rs| ==> rs[k].start <= rs[k].end
    ensures v in Codepoints(PackRangesOf(rs)) <==> Covers(rs, v)
    decreases |rs|
  {
    if rs != [] {
      var n := |rs|;
      var init := rs[..n - 1];
      assert PackRangesOf(rs)[..n - 1] == PackRangesOf(init);
      RequestsCoverRanges(init, v);
      var last := rs[n - 1].Expand();
      assert v in last <==> rs[n - 1].InRange(v) by {
        if rs[n - 1].InRange(v) {
          assert last[v - rs[n - 1].start] == v;
        }
      }
      CoversAppend(init, rs[n - 1], v);
      assert init + [rs[n - 1]] == rs;
    }
  }

  // ---------------------------------------------------------------------
  // Request sizing.

  /** An `stbrp_rect`: requested size, placement, and whether it was placed. */
  datatype Rect = Rect(w: int, h: int, x: int, y: int, wasPacked: bool)

  /** `(v + 63) >> 6`: a 26.6 length rounded up to whole pixels (the shift
      of a signed value floors). */
  function CeilPixels(v: int): int {
    (v + 63) / 64
  }

  /** `CeilPixels` is the least whole number of pixels covering the length. */
  lemma CeilPixelsIsCeiling(v: int)
    ensures CeilPixels(v) * 64 >= v && (CeilPixels(v) - 1) * 64 < v
  {
  }

  /** The request width of a loaded glyph, padding included. */
  function RequestWidth(g: Glyph, opt: Options): int
    requires opt.oversample >= 1
  {
    CDiv(CeilPixels(g.metricsWidth), opt.oversample) + opt.padding * 2
  }

  /** The request height of a loaded glyph, padding included. */
  function RequestHeight(g: Glyph, opt: Options): int
    requires opt.oversample >= 1
  {
    CDiv(CeilPixels(g.metricsHeight), opt.oversample) + opt.padding * 2
  }

  /** A glyph of non-negative metrics asks for its oversampled pixel size
      rounded down, plus the padding on both sides. */
  lemma RequestCoversGlyph(g: Glyph, opt: Options)
    requires Valid(opt) && g.metricsWidth >= 0
    ensures RequestWidth(g, opt) >= 2 * opt.padding
    ensures (RequestWidth(g, opt) - 2 * opt.padding) * opt.oversample <= CeilPixels(g.metricsWidth)
    ensures CeilPixels(g.metricsWidth) < (RequestWidth(g, opt) - 2 * opt.padding + 1) * opt.oversample
  {
    var c := CeilPixels(g.metricsWidth);
    assert c >= 0;
    assert c / opt.oversample * opt.oversample <= c < (c / opt.oversample + 1) * opt.oversample;
  }

  /** `rects[k]` after the sizing loop, from what it held before (the
      buffer is uninitialised): 0 by 0 for a missing glyph, the request size
      for a loaded one, unchanged when loading fails. */
  function Sized(face: Face, cp: int, opt: Options, before: Rect): (r: Rect)
    requires opt.oversample >= 1
    ensures cp !in face.glyphs ==> r.w == 0 && r.h == 0
    ensures r.x == before.x && r.y == before.y && r.wasPacked == before.wasPacked
  {
    if cp !in face.glyphs then before.(w := 0, h := 0)
    else if face.glyphs[cp].loadOk then
      before.(w := RequestWidth(face.glyphs[cp], opt), h := RequestHeight(face.glyphs[cp], opt))
    else before
  }

  /** The sizing loop over ranges and offsets, filling `rects` in order. */
  method SizeRequests(face: Face, ranges: seq<PackRange>, opt: Options, rects: array<Rect>)
    requires opt.oversample >= 1
    requires rects.Length == |Codepoints(ranges)|
    modifies rects
    ensures forall k :: 0 <= k < rects.Length ==>
      rects[k] == Sized(face, Codepoints(ranges)[k], opt, old(rects[k]))
  {
    ghost var cps := Codepoints(ranges);
    var k := 0;
    for i := 0 to |ranges|
      invariant k == |Codepoints(ranges[..i])| <= rects.Length
      invariant forall q :: 0 <= q < k ==> rects[q] == Sized(face, cps[q], opt, old(rects[q]))
      invariant forall q :: k <= q < rects.Length ==> rects[q] == old(rects[q])
    {
      CodepointsStep(ranges, i);
      for j := 0 to ranges[i].numChars
        invariant k == |Codepoints(ranges[..i])| + j <= rects.Length
        invariant forall q :: 0 <= q < k ==> rects[q] == Sized(face, cps[q], opt, old(rects[q]))
        invariant forall q :: k <= q < rects.Length ==> rects[q] == old(rects[q])
      {
        CodepointAt(ranges, i, j);
        var codepoint := ranges[i].first + j;
        var rect := rects[k];
        if codepoint in face.glyphs {
          var glyph := face.glyphs[codepoint];
          if glyph.loadOk {
            rect := rect.(w := RequestWidth(glyph, opt), h := RequestHeight(glyph, opt));
          }
        } else {
          rect := rect.(w := 0, h := 0);
        }
        rects[k] := rect;
        k := k + 1;
      }
    }
    assert ranges[..|ranges|] == ranges;
  }

  /** The `glyph_height` loop: a nonzero height replaces every request's
      height, missing glyphs included. */
  method ApplyGlyphHeight(rects: array<Rect>, glyphHeight: int)
    modifies rects
    ensures forall k :: 0 <= k < rects.Length ==>
      rects[k] == if glyphHeight != 0 then old(rects[k]).(h := glyphHeight) else old(rects[k])
  {
    if glyphHeight != 0 {
      for i := 0 to rects.Length
        invariant forall q :: 0 <= q < i ==> rects[q] == old(rects[q]).(h := glyphHeight)
        invariant forall q :: i <= q < rects.Length ==> rects[q] == old(rects[q])
      {
        rects[i] := rects[i].(h := glyphHeight);
      }
    }
  }

  /** Every request as it is handed to the packer, from the uninitialised
      buffer content `before`. */
  function Requests(face: Face, cps: seq<int>, opt: Options, before: seq<Rect>): (rs: seq<Rect>)
    requires opt.oversample >= 1 && |before| == |cps|
    ensures |rs| == |cps|
  {
    seq(|cps|, k requires 0 <= k < |cps| =>
      var r := Sized(face, cps[k], opt, before[k]);
      if opt.glyphHeight != 0 then r.(h := opt.glyphHeight) else r)
  }

  /** With a fixed glyph height every request has that height; without it a
      missing glyph asks for nothing. */
  lemma RequestHeights(face: Face, cps: seq<int>, opt: Options, before: seq<Rect>, k: nat)
    requires opt.oversample >= 1 && |before| == |cps| && k < |cps|
    ensures opt.glyphHeight != 0 ==> Requests(face, cps, opt, before)[k].h == opt.glyphHeight
    ensures opt.glyphHeight == 0 && cps[k] !in face.glyphs ==>
      Requests(face, cps, opt, before)[k].w == 0 && Requests(face, cps, opt, before)[k].h == 0
  {
  }

  // ---------------------------------------------------------------------
  // The packer and the growth loop.

  datatype Size = Size(w: int, h: int)

  /** Where the packer put one request, and whether it could. */
  datatype Placement = Placement(x: int, y: int, wasPacked: bool)

  /** The rectangle packer: requests and the area it may use, to placements. */
  type Packer = (seq<Size>, int, int) -> seq<Placement>

  function SizesOf(rects: seq<Rect>): (sizes: seq<Size>)
    ensures |sizes| == |rects|
    ensures forall k :: 0 <= k < |rects| ==> sizes[k] == Size(rects[k].w, rects[k].h)
  {
    seq(|rects|, k requires 0 <= k < |rects| => Size(rects[k].w, rects[k].h))
  }

  /** A placed request lies inside the `width` by `height` area. */
  predicate PlacedWithin(s: Size, pl: Placement, width: int, height: int) {
    pl.wasPacked ==> 0 <= pl.x && pl.x + s.w <= width && 0 <= pl.y && pl.y + s.h <= height
  }

  /** What is assumed of the packer: one placement per request, and every
      placed request inside the area it was given. */
  ghost predicate SoundPacker(pack: Packer) {
    forall sizes: seq<Size>, width: int, height: int ::
      && |pack(sizes, width, height)| == |sizes|
      && forall k :: 0 <= k < |sizes| ==> PlacedWithin(sizes[k], pack(sizes, width, height)[k], width, height)
  }

  /** The requests after `stbrp_pack_rects` has written its placements into them. */
  function Placed(reqs: seq<Rect>, placed: seq<Placement>): (rs: seq<Rect>)
    requires |placed| == |reqs|
    ensures |rs| == |reqs|
    ensures forall k :: 0 <= k < |reqs| ==>
      rs[k] == Rect(reqs[k].w, reqs[k].h, placed[k].x, placed[k].y, placed[k].wasPacked)
  {
    seq(|reqs|, k requires 0 <= k < |reqs| => reqs[k].(x := placed[k].x, y := placed[k].y, wasPacked := placed[k].wasPacked))
  }

  predicate AllPacked(pls: seq<Placement>) {
    forall k :: 0 <= k < |pls| ==> pls[k].wasPacked
  }

  /** The `pack_successful` loop: stops at the first unplaced request. */
  method AllWerePacked(pls: seq<Placement>) returns (success: bool)
    ensures success <==> AllPacked(pls)
  {
    success := true;
    for i := 0 to |pls|
      invariant forall q :: 0 <= q < i ==> pls[q].wasPacked
    {
      if !pls[i].wasPacked {
        success := false;
        break;
      }
    }
  }

  datatype Dims = Dims(w: int, h: int)

  function Area(d: Dims): int {
    d.w * d.h
  }

  /** One growth step: double the height of a wide atlas, else the width. */
  function Grow(d: Dims): Dims {
    if d.w > d.h then Dims(d.w, 2 * d.h) else Dims(2 * d.w, d.h)
  }

  /** The atlas size after `n` failed attempts, starting from 8 by 8. */
  function GrowN(n: nat): Dims {
    if n == 0 then Dims(8, 8) else Grow(GrowN(n - 1))
  }

  /** Each step doubles the area, so the area strictly increases. */
  lemma GrowDoublesArea(d: Dims)
    ensures Area(Grow(d)) == 2 * Area(d)
    ensures d.w >= 1 && d.h >= 1 ==> Area(Grow(d)) > Area(d)
  {
  }

  /** The sizes tried are powers of two, square or twice as wide as high:
      8x8, 16x8, 16x16, 32x16, ... */
  lemma {:induction false} GrowNClosedForm(n: nat)
    ensures GrowN(n) == Dims(Pow2(3 + (n + 1) / 2), Pow2(3 + n / 2))
  {
    if n > 0 {
      GrowNClosedForm(n - 1);
      var d := GrowN(n - 1);
      if n % 2 == 1 {
        assert d.w == d.h;
      } else {
        assert d.w == 2 * d.h;
      }
    }
  }

  /** Every size tried is at least the 8 by 8 seed. */
  lemma GrowNAtLeastSeed(n: nat)
    ensures GrowN(n).w >= 8 && GrowN(n).h >= 8
  {
    GrowNClosedForm(n);
    PowAtLeast(3 + (n + 1) / 2, 3);
    PowAtLeast(3 + n / 2, 3);
  }

  lemma {:induction false} PowAtLeast(a: nat, b: nat)
    requires a >= b
    ensures Pow2(a) >= Pow2(b)
  {
    if a > b {
      PowAtLeast(a - 1, b);
    }
  }

  /** Attempt `n` has area `64 * 2^n`; later attempts are always larger. */
  lemma {:induction false} GrowNArea(n: nat)
    ensures Area(GrowN(n)) == 64 * Pow2(n)
  {
    if n > 0 {
      GrowNArea(n - 1);
      GrowDoublesArea(GrowN(n - 1));
    }
  }

  /** The packer places every request in attempt `n`'s atlas (the packer is
      given the atlas less one padding on the right and bottom). */
  predicate FitsAt(pack: Packer, sizes: seq<Size>, padding: int, n: nat) {
    AllPacked(pack(sizes, GrowN(n).w - padding, GrowN(n).h - padding))
  }

  /** `width` by `height` is the first size of the growth sequence at which
      the packer places every request. */
  ghost predicate FirstFit(pack: Packer, sizes: seq<Size>, padding: int, width: int, height: int) {
    exists n: nat ::
      && GrowN(n) == Dims(width, height)
      && FitsAt(pack, sizes, padding, n)
      && forall m :: 0 <= m < n ==> !FitsAt(pack, sizes, padding, m)
  }

  /** The state of the automatic growth loop after `n` failed attempts: the
      current size is attempt `n`'s, no earlier attempt fit, and attempt
      `bound` is known to fit. */
  predicate Searching(pack: Packer, sizes: seq<Size>, padding: int, n: nat, bound: nat, width: int, height: int) {
    && GrowN(n) == Dims(width, height)
    && n <= bound
    && FitsAt(pack, sizes, padding, bound)
    && forall m :: 0 <= m < n ==> !FitsAt(pack, sizes, padding, m)
  }

  /** A failed attempt moves the search to the next size, still short of `bound`. */
  lemma GrowStep(pack: Packer, sizes: seq<Size>, padding: int, n: nat, bound: nat, width: int, height: int)
    requires Searching(pack, sizes, padding, n, bound, width, height)
    requires !FitsAt(pack, sizes, padding, n)
    ensures n < bound
    ensures Searching(pack, sizes, padding, n + 1, bound, Grow(Dims(width, height)).w, Grow(Dims(width, height)).h)
  {
  }

  /** A search that succeeds at attempt `n` has found the first fit. */
  lemma SearchFound(pack: Packer, sizes: seq<Size>, padding: int, n: nat, bound: nat, width: int, height: int)
    requires Searching(pack, sizes, padding, n, bound, width, height)
    requires FitsAt(pack, sizes, padding, n)
    ensures width >= 8 && height >= 8
    ensures FirstFit(pack, sizes, padding, width, height)
  {
    GrowNAtLeastSeed(n);
  }

  /** The growth loop. With `atlasWidth == 0` it starts at 8 by 8 and grows
      until every request is placed, so it ends on the first size that fits;
      with a fixed size it tries that size once. */
  method ChooseAtlasSize(sizes: seq<Size>, opt: Options, pack: Packer) returns (ok: bool, width: int, height: int)
    requires Valid(opt)
    requires opt.atlasWidth == 0 ==> exists n: nat :: FitsAt(pack, sizes, opt.padding, n)
    ensures opt.atlasWidth != 0 ==>
      && width == opt.atlasWidth && height == opt.atlasHeight
      && (ok <==> AllPacked(pack(sizes, width - opt.padding, height - opt.padding)))
    ensures opt.atlasWidth == 0 ==>
      && ok
      && width >= 8 && height >= 8
      && AllPacked(pack(sizes, width - opt.padding, height - opt.padding))
      && FirstFit(pack, sizes, opt.padding, width, height)
  {
    var autoSize := opt.atlasWidth == 0;
    width := if autoSize then 8 else opt.atlasWidth;
    height := if autoSize then 8 else opt.atlasHeight;
    ghost var n: nat := 0;
    ghost var bound: nat := 0;
    if autoSize {
      bound :| FitsAt(pack, sizes, opt.padding, bound);
    }
    ok := true;
    while true
      invariant autoSize ==> Searching(pack, sizes, opt.padding, n, bound, width, height)
      invariant !autoSize ==> width == opt.atlasWidth && height == opt.atlasHeight
      decreases if autoSize then bound - n else 0
    {
      var placed := pack(sizes, width - opt.padding, height - opt.padding);
      var success := AllWerePacked(placed);
      if success {
        break;
      }
      if autoSize {
        GrowStep(pack, sizes, opt.padding, n, bound, width, height);
        if width > height {
          height := height * 2;
        } else {
          width := width * 2;
        }
        n := n + 1;
      } else {
        ok := false;
        break;
      }
    }
    if autoSize {
      SearchFound(pack, sizes, opt.padding, n, bound, width, height);
    }
  }
}
