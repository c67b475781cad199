/** The compositing half of `PackFontRanges`: where each rendered glyph's
    rows land inside its packed rectangle, the bytes written for it, the
    packed-character record, and the atlas that results. */
module AtlasCompositor {
  import opened Bytes
  import opened BakeOptions
  import opened GlyphPixels
  import opened AtlasPacking

  /** `baseline`: the ascender in whole pixels, over the oversample, plus `y_offset`. */
  function Baseline(face: Face, opt: Options): int
    requires opt.oversample >= 1
  {
    CDiv(CeilPixels(face.ascender), opt.oversample) + opt.yOffset
  }

  /** `dst_y_start` before clipping: in fixed-height mode the row where the
      bitmap's top lands below the baseline, otherwise 0. */
  function DstStart(opt: Options, baseline: int, bitmapTop: int): int
    requires opt.oversample >= 1
  {
    if opt.glyphHeight != 0 then baseline - CDiv(bitmapTop + opt.oversample - 1, opt.oversample) else 0
  }

  /** For a bitmap top at or above the baseline, `(top + os - 1) / os` is
      the rounded-up quotient. */
  lemma TopRoundsUp(bitmapTop: int, os: int)
    requires bitmapTop >= 0 && os >= 1
    ensures CDiv(bitmapTop + os - 1, os) * os >= bitmapTop
    ensures (CDiv(bitmapTop + os - 1, os) - 1) * os < bitmapTop
  {
  }

  /** Below the baseline C's truncating division no longer rounds up: a top
      of -2 at oversample 2 gives 0 where the ceiling is -1. */
  lemma NegativeTopRounding()
    ensures CDiv(-2 + 2 - 1, 2) == 0
  {
  }

  /** The rows `[start, end)` of the rectangle that are written, and whether
      either clip fired (`crop_error`). */
  datatype Crop = Crop(start: int, end: int, cropped: bool)

  /** The crop of the source: a negative start is moved to 0 and also
      subtracted from the end; an end past `rectH` is clipped to it. */
  function CropRows(start0: int, rowsNeeded: nat, rectH: int): (c: Crop)
    ensures 0 <= c.start && c.end <= rectH
    ensures c.cropped <==> start0 < 0 || start0 + rowsNeeded + (if start0 < 0 then start0 else 0) > rectH
    ensures !c.cropped ==> c.start == start0 && c.end == start0 + rowsNeeded
    ensures c.end - c.start <= rowsNeeded
  {
    var top := start0 < 0;
    var start := if top then 0 else start0;
    var end := start0 + rowsNeeded + (if top then start0 else 0);
    var bottom := end > rectH;
    Crop(start, if bottom then rectH else end, top || bottom)
  }

  /** Every row the crop lets through is a row of the rectangle. */
  lemma CropRowsInside(start0: int, rowsNeeded: nat, rectH: int, y: int)
    requires 0 <= y < CropRows(start0, rowsNeeded, rectH).end - CropRows(start0, rowsNeeded, rectH).start
    ensures 0 <= CropRows(start0, rowsNeeded, rectH).start + y < rectH
  {
  }

  /** As written, a top crop of `d` rows is counted twice: `2 * d` rows are
      lost, and the rows written start with source row 0, so it is the
      bottom of the glyph that disappears. */
  lemma TopCropLosesTwice(d: int, rowsNeeded: nat, rectH: int)
    requires 0 < d && 2 * d <= rowsNeeded <= rectH
    ensures CropRows(-d, rowsNeeded, rectH) == Crop(0, rowsNeeded - 2 * d, true)
  {
  }

  /** The crop as evidently intended, together with the first source row to
      sample (`src_y_start`): clipping removes the rows outside the
      rectangle and moves nothing. */
  datatype Window = Window(start: int, end: int, srcStart: int, cropped: bool)

  predicate InRows(w: Window, r: int) {
    w.start <= r < w.end
  }

  /** The source row shown in rectangle row `r`. */
  function SourceRow(w: Window, r: int): int {
    r - w.start + w.srcStart
  }

  function CropRowsIntended(start0: int, rowsNeeded: nat, rectH: int): (w: Window)
    ensures 0 <= w.start && w.end <= rectH && w.srcStart >= 0
    ensures w.cropped <==> start0 < 0 || start0 + rowsNeeded > rectH
    ensures forall r :: InRows(w, r) <==> 0 <= r < rectH && start0 <= r < start0 + rowsNeeded
    ensures forall r :: InRows(w, r) ==> SourceRow(w, r) == r - start0
  {
    var top := start0 < 0;
    var start := if top then 0 else start0;
    var end := start0 + rowsNeeded;
    var bottom := end > rectH;
    Window(start, if bottom then rectH else end, start - start0, top || bottom)
  }

  /** The correction leaves `crop_error`, and so the return value, as it
      was: only which rows are written changes. */
  lemma CropFlagUnchanged(start0: int, rowsNeeded: nat, rectH: int)
    ensures CropRowsIntended(start0, rowsNeeded, rectH).cropped == CropRows(start0, rowsNeeded, rectH).cropped
  {
  }

  /** `stbtt_packedchar`'s rectangle; the fields are `unsigned short`. */
  datatype PackedChar = PackedChar(x0: int, y0: int, x1: int, y1: int)

  const Cleared := PackedChar(0, 0, 0, 0)

  /** Conversion to `unsigned short`. */
  function U16(v: int): (r: int)
    ensures 0 <= r < 0x10000
    ensures 0 <= v < 0x10000 ==> r == v
  {
    v % 0x10000
  }

  /** The record of a rendered glyph: its rectangle inset by the padding,
      with the right and bottom edges at `rect.x + rect.w - 2p + 1`. */
  function RenderedChar(rect: Rect, padding: int): PackedChar {
    PackedChar(U16(rect.x + padding), U16(rect.y + padding),
               U16(rect.x + rect.w - padding * 2 + 1), U16(rect.y + rect.h - padding * 2 + 1))
  }

  /** The `tex` box written for a packed character: x1 and y1 are read as
      inclusive edges. */
  datatype Tex = Tex(x: int, y: int, w: int, h: int)

  function TexOf(pc: PackedChar): Tex {
    Tex(pc.x0, pc.y0, pc.x1 - pc.x0 + 1, pc.y1 - pc.y0 + 1)
  }

  /** Without wrap-around, the `tex` box of a rendered glyph starts inside the
      padding and is `rect.w - 3p + 2` wide and `rect.h - 3p + 2` high. */
  lemma TexOfRendered(rect: Rect, padding: int)
    requires 0 <= rect.x + padding && rect.x + rect.w - padding * 2 + 1 < 0x10000
    requires 0 <= rect.x + rect.w - padding * 2 + 1 && rect.x + padding < 0x10000
    requires 0 <= rect.y + padding && rect.y + rect.h - padding * 2 + 1 < 0x10000
    requires 0 <= rect.y + rect.h - padding * 2 + 1 && rect.y + padding < 0x10000
    ensures TexOf(RenderedChar(rect, padding)) ==
      Tex(rect.x + padding, rect.y + padding, rect.w - 3 * padding + 2, rect.h - 3 * padding + 2)
  {
  }

  /** A missing glyph's record stays cleared and emits a 1 by 1 box at the origin. */
  lemma TexOfCleared()
    ensures TexOf(Cleared) == Tex(0, 0, 1, 1)
  {
  }

  // ---------------------------------------------------------------------
  // Writing one glyph.

  /** One glyph's writes: `rows` by `cols` atlas cells from (`top`, `left`),
      cell (y, x) holding the shade of output pixel (x, y) of `bm`; the
      sampling always starts at source row 0, whatever the crop. */
  datatype Job = Job(top: int, left: int, rows: nat, cols: nat, bm: Bitmap, k: nat)

  predicate InWindow(job: Job, r: int, c: int) {
    job.top <= r < job.top + job.rows && job.left <= c < job.left + job.cols
  }

  function JobShade(job: Job, r: int, c: int, opt: Options): byte
    requires WellFormed(job.bm) && Valid(opt)
  {
    Shade(job.bm, c - job.left, r - job.top, job.k, opt)
  }

  /** The window lies inside a `height` by `width` atlas. */
  predicate Inside(job: Job, height: int, width: int) {
    job.rows == 0 || job.cols == 0 ||
      (0 <= job.top && job.top + job.rows <= height && 0 <= job.left && job.left + job.cols <= width)
  }

  /** The `y`/`x` loops that write one glyph through the advancing `dst`
      pointer: every cell of the window gets its shade, nothing else changes. */
  method RenderGlyph(pixels: array2<byte>, job: Job, opt: Options)
    requires WellFormed(job.bm) && Valid(opt)
    requires Inside(job, pixels.Length0, pixels.Length1)
    modifies pixels
    ensures forall r, c :: 0 <= r < pixels.Length0 && 0 <= c < pixels.Length1 ==>
      pixels[r, c] == if InWindow(job, r, c) then JobShade(job, r, c, opt) else old(pixels[r, c])
  {
    for y := 0 to job.rows
      invariant forall r, c :: 0 <= r < pixels.Length0 && 0 <= c < pixels.Length1 ==>
        pixels[r, c] == if InWindow(job, r, c) && r < job.top + y then JobShade(job, r, c, opt) else old(pixels[r, c])
    {
      for x := 0 to job.cols
        invariant forall r, c :: 0 <= r < pixels.Length0 && 0 <= c < pixels.Length1 ==>
          pixels[r, c] ==
            if InWindow(job, r, c) && (r < job.top + y || (r == job.top + y && c < job.left + x))
            then JobShade(job, r, c, opt) else old(pixels[r, c])
      {
        var pixel := SamplePixel(job.bm, x, y, opt.oversample);
        pixel := Remap(pixel, opt.alphaMin, opt.alphaMax);
        if opt.showGrid {
          OrOfBytes(pixel, GridMask(job.k));
          pixel := Or(pixel, GridMask(job.k));
        }
        pixels[job.top + y, job.left + x] := pixel as byte;
      }
    }
  }

  /** The atlas after the glyphs of `jobs` are written in order over a
      zeroed buffer: the last window to cover a cell decides it. */
  function LastWriter(jobs: seq<Job>, r: int, c: int, opt: Options): byte
    requires Valid(opt) && forall j :: 0 <= j < |jobs| ==> WellFormed(jobs[j].bm)
  {
    if jobs == [] then 0
    else
      var last := jobs[|jobs| - 1];
      if InWindow(last, r, c) then JobShade(last, r, c, opt)
      else LastWriter(jobs[..|jobs| - 1], r, c, opt)
  }

  /** A cell no glyph covers keeps the 0 of the fresh buffer. */
  lemma {:induction false} UncoveredIsZero(jobs: seq<Job>, r: int, c: int, opt: Options)
    requires Valid(opt) && forall j :: 0 <= j < |jobs| ==> WellFormed(jobs[j].bm)
    requires forall j :: 0 <= j < |jobs| ==> !InWindow(jobs[j], r, c)
    ensures LastWriter(jobs, r, c, opt) == 0
  {
    if jobs != [] {
      UncoveredIsZero(jobs[..|jobs| - 1], r, c, opt);
    }
  }

  /** A cell holds the shade of the last glyph whose window covers it; when
      windows do not overlap, each glyph's cells hold its own shade. */
  lemma {:induction false} LastWriterWins(jobs: seq<Job>, j: nat, r: int, c: int, opt: Options)
    requires Valid(opt) && forall i :: 0 <= i < |jobs| ==> WellFormed(jobs[i].bm)
    requires j < |jobs| && InWindow(jobs[j], r, c)
    requires forall i :: j < i < |jobs| ==> !InWindow(jobs[i], r, c)
    ensures LastWriter(jobs, r, c, opt) == JobShade(jobs[j], r, c, opt)
  {
    if j < |jobs| - 1 {
      LastWriterWins(jobs[..|jobs| - 1], j, r, c, opt);
    }
  }

  // ---------------------------------------------------------------------
  // The second pass over the requests.

  /** What is assumed of the face: every bitmap is well formed, and its
      oversampled width fits the width its request asked for (the source
      does not clip columns). */
  predicate GlyphsFit(face: Face, opt: Options)
    requires Valid(opt)
  {
    forall cp :: cp in face.glyphs ==>
      && WellFormed(face.glyphs[cp].bitmap)
      && CeilDiv(face.glyphs[cp].bitmap.width, opt.oversample) <= RequestWidth(face.glyphs[cp], opt)
  }

  /** The glyph of `cp` is present and loads, so it is rendered. */
  predicate Renders(face: Face, cp: int) {
    cp in face.glyphs && face.glyphs[cp].loadOk
  }

  /** Every loaded glyph among the first `|rects|` requests writes inside a
      `height` by `width` atlas. */
  predicate AllInside(face: Face, cps: seq<int>, rects: seq<Rect>, opt: Options, baseline: int, height: int, width: int) {
    && Valid(opt) && GlyphsFit(face, opt) && |rects| <= |cps|
    && forall q :: 0 <= q < |rects| && Renders(face, cps[q]) ==>
      Inside(JobOf(face.glyphs[cps[q]], rects[q], opt, baseline, q), height, width)
  }

  /** The crop of a rendered glyph in its rectangle, as written: a top crop
      also shortens the window by the rows cut off. */
  function CropOf(g: Glyph, rect: Rect, opt: Options, baseline: int): Crop
    requires Valid(opt)
  {
    CropRows(DstStart(opt, baseline, g.bitmapTop), CeilDiv(g.bitmap.rows, opt.oversample), rect.h)
  }

  /** The writes of request `k`, a rendered glyph placed at `rect`. */
  function JobOf(g: Glyph, rect: Rect, opt: Options, baseline: int, k: nat): Job
    requires Valid(opt)
  {
    var crop := CropOf(g, rect, opt, baseline);
    Job(rect.y + crop.start + opt.padding, rect.x + opt.padding,
        if crop.end > crop.start then crop.end - crop.start else 0,
        CeilDiv(g.bitmap.width, opt.oversample), g.bitmap, k)
  }

  /** As written, a glyph cut `d` rows at the top is written from the top of
      its rectangle with its first `R - 2d` rows (`R` its height in output
      pixels): its last `2d` rows are lost, not its first `d`. */
  lemma TopCroppedJob(g: Glyph, rect: Rect, opt: Options, baseline: int, k: nat, d: int)
    requires Valid(opt) && DstStart(opt, baseline, g.bitmapTop) == -d
    requires 0 < d && 2 * d <= CeilDiv(g.bitmap.rows, opt.oversample) <= rect.h
    ensures JobOf(g, rect, opt, baseline, k).top == rect.y + opt.padding
    ensures JobOf(g, rect, opt, baseline, k).rows == CeilDiv(g.bitmap.rows, opt.oversample) - 2 * d
    ensures CropOf(g, rect, opt, baseline).cropped
  {
    TopCropLosesTwice(d, CeilDiv(g.bitmap.rows, opt.oversample), rect.h);
  }

  /** Request `k` sets `crop_error`. */
  predicate CroppedAt(face: Face, cp: int, rect: Rect, opt: Options, baseline: int)
    requires Valid(opt)
  {
    Renders(face, cp) && CropOf(face.glyphs[cp], rect, opt, baseline).cropped
  }

  /** One of the first `n` requests was cropped: `crop_error` after `n` of them. */
  predicate AnyCropped(face: Face, cps: seq<int>, rects: seq<Rect>, opt: Options, baseline: int, n: nat)
    requires Valid(opt) && n <= |cps| && n <= |rects|
  {
    exists q :: 0 <= q < n && CroppedAt(face, cps[q], rects[q], opt, baseline)
  }

  /** The packed-character record after the second pass: untouched for a
      missing glyph, cleared when loading fails, the inset rectangle otherwise. */
  function CharAfter(face: Face, cp: int, rect: Rect, opt: Options, before: PackedChar): PackedChar {
    if cp !in face.glyphs then before
    else if !face.glyphs[cp].loadOk then Cleared
    else RenderedChar(rect, opt.padding)
  }

  /** The writes of the first `n` requests, in order. */
  function Jobs(face: Face, cps: seq<int>, rects: seq<Rect>, opt: Options, baseline: int, n: nat): (jobs: seq<Job>)
    requires Valid(opt) && GlyphsFit(face, opt)
    requires n <= |cps| && n <= |rects|
    ensures forall j :: 0 <= j < |jobs| ==> WellFormed(jobs[j].bm)
  {
    if n == 0 then []
    else
      Jobs(face, cps, rects, opt, baseline, n - 1) +
        (if Renders(face, cps[n - 1]) then [JobOf(face.glyphs[cps[n - 1]], rects[n - 1], opt, baseline, n - 1)] else [])
  }

  /** Adding request `k` to the written glyphs: its window, if it renders,
      is written over the atlas so far. */
  lemma LastWriterStep(face: Face, cps: seq<int>, rects: seq<Rect>, opt: Options, baseline: int, k: nat)
    requires Valid(opt) && GlyphsFit(face, opt)
    requires k < |cps| && k < |rects|
    ensures forall r, c ::
      LastWriter(Jobs(face, cps, rects, opt, baseline, k + 1), r, c, opt) ==
      (if Renders(face, cps[k]) && InWindow(JobOf(face.glyphs[cps[k]], rects[k], opt, baseline, k), r, c)
       then JobShade(JobOf(face.glyphs[cps[k]], rects[k], opt, baseline, k), r, c, opt)
       else LastWriter(Jobs(face, cps, rects, opt, baseline, k), r, c, opt))
  {
    var before := Jobs(face, cps, rects, opt, baseline, k);
    if Renders(face, cps[k]) {
      var job := JobOf(face.glyphs[cps[k]], rects[k], opt, baseline, k);
      assert (before + [job])[..|before|] == before;
    } else {
      assert before + [] == before;
    }
  }

  /** One iteration of the second pass: request `k`, for code point `cp`
      placed at `rect`. */
  method CompositeChar(face: Face, cp: int, rect: Rect, k: nat, opt: Options, baseline: int,
                       pixels: array2<byte>, chars: array<PackedChar>)
    returns (cropped: bool)
    requires Valid(opt) && GlyphsFit(face, opt) && k < chars.Length
    requires Renders(face, cp) ==> Inside(JobOf(face.glyphs[cp], rect, opt, baseline, k), pixels.Length0, pixels.Length1)
    modifies pixels, chars
    ensures forall r, c :: 0 <= r < pixels.Length0 && 0 <= c < pixels.Length1 ==>
      pixels[r, c] ==
        if Renders(face, cp) && InWindow(JobOf(face.glyphs[cp], rect, opt, baseline, k), r, c)
        then JobShade(JobOf(face.glyphs[cp], rect, opt, baseline, k), r, c, opt)
        else old(pixels[r, c])
    ensures chars[k] == CharAfter(face, cp, rect, opt, old(chars[k]))
    ensures forall q :: 0 <= q < chars.Length && q != k ==> chars[q] == old(chars[q])
    ensures cropped == CroppedAt(face, cp, rect, opt, baseline)
  {
    cropped := false;
    if cp in face.glyphs {
      var glyph := face.glyphs[cp];
      if !glyph.loadOk {
        chars[k] := Cleared;
      } else {
        var bm := glyph.bitmap;
        // `src_y_start` is computed as in the source but never read: the
        // rows written are sampled from source row 0 on.
        var srcYStart := 0;
        var dstYStart := if opt.glyphHeight != 0 then baseline - CDiv(glyph.bitmapTop + opt.oversample - 1, opt.oversample) else 0;
        var dstYEnd := dstYStart + CeilDiv(bm.rows, opt.oversample);
        if dstYStart < 0 {
          dstYEnd := dstYEnd + dstYStart;
          srcYStart := srcYStart - dstYStart;
          dstYStart := 0;
          cropped := true;
        }
        var maxHeight := rect.h;
        if dstYEnd > maxHeight {
          dstYEnd := maxHeight;
          cropped := true;
        }
        var numRows := dstYEnd - dstYStart;
        var job := Job(rect.y + dstYStart + opt.padding, rect.x + opt.padding,
                       if numRows > 0 then numRows else 0, CeilDiv(bm.width, opt.oversample), bm, k);
        assert job == JobOf(glyph, rect, opt, baseline, k);
        RenderGlyph(pixels, job, opt);
        chars[k] := RenderedChar(rect, opt.padding);
      }
    }
  }

  /** The state of the second pass after its first `k` requests: the atlas
      holds their writes over zeroes, their packed characters are set, the
      others are as they were (`orig`), and `cropError` says whether one of
      them was cropped. */
  predicate Composited(face: Face, cps: seq<int>, rects: seq<Rect>, opt: Options, baseline: int, k: nat,
                       pixels: array2<byte>, chars: array<PackedChar>, orig: seq<PackedChar>, cropError: bool)
    reads pixels, chars
  {
    && Valid(opt) && GlyphsFit(face, opt)
    && k <= |cps| && k <= |rects| && |orig| == chars.Length
    && (forall r, c :: 0 <= r < pixels.Length0 && 0 <= c < pixels.Length1 ==>
          pixels[r, c] == LastWriter(Jobs(face, cps, rects, opt, baseline, k), r, c, opt))
    && (forall q :: 0 <= q < k && q < chars.Length ==> chars[q] == CharAfter(face, cps[q], rects[q], opt, orig[q]))
    && (forall q :: k <= q < chars.Length ==> chars[q] == orig[q])
    && (cropError <==> AnyCropped(face, cps, rects, opt, baseline, k))
  }

  /** One iteration of the inner loop of the second pass, request `k`. */
  method CompositeNext(face: Face, ghost cps: seq<int>, cp: int, rects: seq<Rect>, opt: Options, baseline: int, k: nat,
                       pixels: array2<byte>, chars: array<PackedChar>, ghost orig: seq<PackedChar>, cropError: bool)
    returns (cropErrorAfter: bool)
    requires Valid(opt) && GlyphsFit(face, opt)
    requires k < |cps| == |rects| == chars.Length == |orig| && cp == cps[k]
    requires Renders(face, cps[k]) ==>
      Inside(JobOf(face.glyphs[cps[k]], rects[k], opt, baseline, k), pixels.Length0, pixels.Length1)
    requires Composited(face, cps, rects, opt, baseline, k, pixels, chars, orig, cropError)
    modifies pixels, chars
    ensures Composited(face, cps, rects, opt, baseline, k + 1, pixels, chars, orig, cropErrorAfter)
  {
    var cropped := CompositeChar(face, cp, rects[k], k, opt, baseline, pixels, chars);
    LastWriterStep(face, cps, rects, opt, baseline, k);
    cropErrorAfter := cropError || cropped;
    AnyCroppedStep(face, cps, rects, opt, baseline, k);
  }

  lemma AnyCroppedStep(face: Face, cps: seq<int>, rects: seq<Rect>, opt: Options, baseline: int, k: nat)
    requires Valid(opt) && k < |cps| && k < |rects|
    ensures AnyCropped(face, cps, rects, opt, baseline, k + 1) <==>
      AnyCropped(face, cps, rects, opt, baseline, k) || CroppedAt(face, cps[k], rects[k], opt, baseline)
  {
  }

  /** The inner loop of the second pass: the requests of range `i`, which
      start at request `k`. */
  method CompositeRange(face: Face, ranges: seq<PackRange>, i: nat, k: nat, opt: Options, baseline: int,
                        rects: seq<Rect>, pixels: array2<byte>, chars: array<PackedChar>,
                        ghost orig: seq<PackedChar>, cropError: bool)
    returns (cropErrorAfter: bool)
    requires Valid(opt) && GlyphsFit(face, opt)
    requires i < |ranges| && k == |Codepoints(ranges[..i])|
    requires |rects| == chars.Length == |Codepoints(ranges)| == |orig|
    requires AllInside(face, Codepoints(ranges), rects, opt, baseline, pixels.Length0, pixels.Length1)
    requires Composited(face, Codepoints(ranges), rects, opt, baseline, k, pixels, chars, orig, cropError)
    modifies pixels, chars
    ensures k + ranges[i].numChars == |Codepoints(ranges[..i + 1])|
    ensures Composited(face, Codepoints(ranges), rects, opt, baseline, k + ranges[i].numChars, pixels, chars, orig, cropErrorAfter)
  {
    ghost var cps := Codepoints(ranges);
    CodepointsStep(ranges, i);
    cropErrorAfter := cropError;
    for j := 0 to ranges[i].numChars
      invariant k + j <= |rects|
      invariant Composited(face, cps, rects, opt, baseline, k + j, pixels, chars, orig, cropErrorAfter)
    {
      CodepointAt(ranges, i, j);
      cropErrorAfter := CompositeNext(face, cps, ranges[i].first + j, rects, opt, baseline, k + j, pixels, chars, orig, cropErrorAfter);
    }
  }

  /** The second pass over ranges and offsets: renders every loaded glyph
      into the zeroed atlas in request order and fills the packed-character
      records; returns `crop_error`. */
  method CompositeGlyphs(face: Face, ranges: seq<PackRange>, opt: Options, baseline: int, rects: seq<Rect>,
                         pixels: array2<byte>, chars: array<PackedChar>)
    returns (cropError: bool)
    requires Valid(opt) && GlyphsFit(face, opt)
    requires |rects| == chars.Length == |Codepoints(ranges)|
    requires AllInside(face, Codepoints(ranges), rects, opt, baseline, pixels.Length0, pixels.Length1)
    requires forall r, c :: 0 <= r < pixels.Length0 && 0 <= c < pixels.Length1 ==> pixels[r, c] == 0
    modifies pixels, chars
    ensures forall r, c :: 0 <= r < pixels.Length0 && 0 <= c < pixels.Length1 ==>
      pixels[r, c] == LastWriter(Jobs(face, Codepoints(ranges), rects, opt, baseline, |rects|), r, c, opt)
    ensures forall q :: 0 <= q < chars.Length ==>
      chars[q] == CharAfter(face, Codepoints(ranges)[q], rects[q], opt, old(chars[q]))
    ensures cropError <==> AnyCropped(face, Codepoints(ranges), rects, opt, baseline, |rects|)
  {
    ghost var cps := Codepoints(ranges);
    ghost var orig := chars[..];
    cropError := false;
    var k := 0;
    for i := 0 to |ranges|
      invariant k == |Codepoints(ranges[..i])| <= |rects|
      invariant Composited(face, cps, rects, opt, baseline, k, pixels, chars, orig, cropError)
    {
      cropError := CompositeRange(face, ranges, i, k, opt, baseline, rects, pixels, chars, orig, cropError);
      k := k + ranges[i].numChars;
    }
    assert ranges[..|ranges|] == ranges;
  }

  /** The first loop of `PackFontRanges`: every packed-character record of
      every range starts cleared. */
  method ClearPackedChars(ranges: seq<PackRange>, chars: array<PackedChar>)
    requires chars.Length == |Codepoints(ranges)|
    modifies chars
    ensures forall q :: 0 <= q < chars.Length ==> chars[q] == Cleared
  {
    var base := 0;
    for i := 0 to |ranges|
      invariant base == |Codepoints(ranges[..i])| <= chars.Length
      invariant forall q :: 0 <= q < base ==> chars[q] == Cleared
    {
      CodepointsStep(ranges, i);
      for j := 0 to ranges[i].numChars
        invariant base + j <= chars.Length
        invariant forall q :: 0 <= q < base + j ==> chars[q] == Cleared
      {
        CodepointAt(ranges, i, j);
        chars[base + j] := Cleared;
      }
      base := base + ranges[i].numChars;
    }
    assert ranges[..|ranges|] == ranges;
  }

  // ---------------------------------------------------------------------
  // The whole of `PackFontRanges`, in auto-size mode.

  /** The requests of `ranges`, from the uninitialised buffer content. */
  function RequestsOf(face: Face, ranges: seq<PackRange>, opt: Options, uninitialised: seq<Rect>): seq<Rect>
    requires Valid(opt) && |uninitialised| == |Codepoints(ranges)|
  {
    Requests(face, Codepoints(ranges), opt, uninitialised)
  }

  /** The requests as placed in a `width` by `height` atlas (the packer is
      given the atlas less one padding on the right and bottom). */
  function LayoutIn(reqs: seq<Rect>, pack: Packer, padding: int, width: int, height: int): (rects: seq<Rect>)
    requires SoundPacker(pack)
    ensures |rects| == |reqs|
  {
    Placed(reqs, pack(SizesOf(reqs), width - padding, height - padding))
  }

  /** A rendered glyph in a rectangle the packer placed writes only inside
      the atlas: rows stop at the cropped end, columns at the request width. */
  lemma JobInside(g: Glyph, rect: Rect, opt: Options, baseline: int, k: nat, height: int, width: int)
    requires Valid(opt) && CeilDiv(g.bitmap.width, opt.oversample) <= rect.w
    requires rect.wasPacked
    requires PlacedWithin(Size(rect.w, rect.h), Placement(rect.x, rect.y, true), width - opt.padding, height - opt.padding)
    ensures Inside(JobOf(g, rect, opt, baseline, k), height, width)
  {
  }

  /** When every request fits, every glyph the second pass renders stays
      inside the atlas. */
  lemma LayoutInside(face: Face, ranges: seq<PackRange>, opt: Options, pack: Packer, uninitialised: seq<Rect>,
                     baseline: int, width: int, height: int)
    requires Valid(opt) && GlyphsFit(face, opt) && SoundPacker(pack)
    requires |uninitialised| == |Codepoints(ranges)|
    requires AllPacked(pack(SizesOf(RequestsOf(face, ranges, opt, uninitialised)), width - opt.padding, height - opt.padding))
    ensures AllInside(face, Codepoints(ranges), LayoutIn(RequestsOf(face, ranges, opt, uninitialised), pack, opt.padding, width, height),
                      opt, baseline, height, width)
  {
    var cps := Codepoints(ranges);
    var reqs := RequestsOf(face, ranges, opt, uninitialised);
    var sizes := SizesOf(reqs);
    var placed := pack(sizes, width - opt.padding, height - opt.padding);
    var layout := LayoutIn(RequestsOf(face, ranges, opt, uninitialised), pack, opt.padding, width, height);
    forall q | 0 <= q < |layout| && Renders(face, cps[q])
      ensures Inside(JobOf(face.glyphs[cps[q]], layout[q], opt, baseline, q), height, width)
    {
      assert placed[q].wasPacked;
      assert PlacedWithin(sizes[q], placed[q], width - opt.padding, height - opt.padding);
      JobInside(face.glyphs[cps[q]], layout[q], opt, baseline, q, height, width);
    }
  }

  /** The sizing pass: the request buffer starts as whatever `malloc`
      returned and is sized glyph by glyph, then given the fixed height. */
  method SizeAll(face: Face, ranges: seq<PackRange>, opt: Options, uninitialised: seq<Rect>)
    returns (rects: array<Rect>)
    requires Valid(opt) && |uninitialised| == |Codepoints(ranges)|
    ensures fresh(rects)
    ensures rects[..] == RequestsOf(face, ranges, opt, uninitialised)
  {
    var numChars := CountChars(ranges);
    rects := new Rect[numChars](k => if 0 <= k < |uninitialised| then uninitialised[k] else Rect(0, 0, 0, 0, false));
    assert rects[..] == uninitialised;
    SizeRequests(face, ranges, opt, rects);
    ApplyGlyphHeight(rects, opt.glyphHeight);
  }

  /** `stbrp_pack_rects` writing its placements into the requests. */
  method PlaceAll(rects: array<Rect>, pack: Packer, width: int, height: int)
    requires SoundPacker(pack)
    modifies rects
    ensures rects[..] == Placed(old(rects[..]), pack(SizesOf(old(rects[..])), width, height))
  {
    var placed := pack(SizesOf(rects[..]), width, height);
    forall k | 0 <= k < rects.Length {
      rects[k] := rects[k].(x := placed[k].x, y := placed[k].y, wasPacked := placed[k].wasPacked);
    }
  }

  /** The growth loop in auto-size mode followed by the final packing,
      whose placements are written into the requests. */
  method GrowAndPlace(rects: array<Rect>, opt: Options, pack: Packer) returns (width: int, height: int)
    requires Valid(opt) && opt.atlasWidth == 0 && SoundPacker(pack)
    requires exists n: nat :: FitsAt(pack, SizesOf(rects[..]), opt.padding, n)
    modifies rects
    ensures width >= 8 && height >= 8
    ensures FirstFit(pack, SizesOf(old(rects[..])), opt.padding, width, height)
    ensures AllPacked(pack(SizesOf(old(rects[..])), width - opt.padding, height - opt.padding))
    ensures rects[..] == LayoutIn(old(rects[..]), pack, opt.padding, width, height)
  {
    var ok;
    ok, width, height := ChooseAtlasSize(SizesOf(rects[..]), opt, pack);
    PlaceAll(rects, pack, width - opt.padding, height - opt.padding);
  }

  /** The first pass and the growth loop of `PackFontRanges` in auto-size
      mode: the requests are sized, the atlas grows to the first size at
      which the packer places them all, and the placements are written
      into the requests. */
  method LayOut(face: Face, ranges: seq<PackRange>, opt: Options, pack: Packer, uninitialised: seq<Rect>)
    returns (rects: array<Rect>, width: int, height: int)
    requires Valid(opt) && opt.atlasWidth == 0 && SoundPacker(pack)
    requires |uninitialised| == |Codepoints(ranges)|
    requires exists n: nat :: FitsAt(pack, SizesOf(RequestsOf(face, ranges, opt, uninitialised)), opt.padding, n)
    ensures fresh(rects)
    ensures width >= 8 && height >= 8
    ensures FirstFit(pack, SizesOf(RequestsOf(face, ranges, opt, uninitialised)), opt.padding, width, height)
    ensures AllPacked(pack(SizesOf(RequestsOf(face, ranges, opt, uninitialised)), width - opt.padding, height - opt.padding))
    ensures rects[..] == LayoutIn(RequestsOf(face, ranges, opt, uninitialised), pack, opt.padding, width, height)
  {
    rects := SizeAll(face, ranges, opt, uninitialised);
    width, height := GrowAndPlace(rects, opt, pack);
  }

  /** `PackFontRanges` with an automatic atlas size: clears the records,
      sizes the requests, grows the atlas until the packer places them all,
      then writes every loaded glyph into a zeroed atlas. Returns 0 exactly
      when a glyph was cropped and `error_on_crop` is set. */
  method PackFontRanges(face: Face, ranges: seq<PackRange>, opt: Options, pack: Packer,
                        uninitialised: seq<Rect>, chars: array<PackedChar>)
    returns (ret: int, pixels: array2<byte>)
    requires Valid(opt) && opt.atlasWidth == 0 && GlyphsFit(face, opt) && SoundPacker(pack)
    requires chars.Length == |Codepoints(ranges)| == |uninitialised|
    requires exists n: nat :: FitsAt(pack, SizesOf(RequestsOf(face, ranges, opt, uninitialised)), opt.padding, n)
    modifies chars
    ensures fresh(pixels)
    ensures FirstFit(pack, SizesOf(RequestsOf(face, ranges, opt, uninitialised)), opt.padding, pixels.Length1, pixels.Length0)
    ensures forall r, c :: 0 <= r < pixels.Length0 && 0 <= c < pixels.Length1 ==>
      pixels[r, c] == LastWriter(
        Jobs(face, Codepoints(ranges), LayoutIn(RequestsOf(face, ranges, opt, uninitialised), pack, opt.padding, pixels.Length1, pixels.Length0),
             opt, Baseline(face, opt), chars.Length), r, c, opt)
    ensures forall q :: 0 <= q < chars.Length ==>
      chars[q] == CharAfter(face, Codepoints(ranges)[q],
                            LayoutIn(RequestsOf(face, ranges, opt, uninitialised), pack, opt.padding, pixels.Length1, pixels.Length0)[q], opt, Cleared)
    ensures ret == 0 <==> opt.errorOnCrop && AnyCropped(
      face, Codepoints(ranges),
      LayoutIn(RequestsOf(face, ranges, opt, uninitialised), pack, opt.padding, pixels.Length1, pixels.Length0),
      opt, Baseline(face, opt), chars.Length)
    ensures ret == 0 || ret == 1
  {
    var baseline := Baseline(face, opt);
    ClearPackedChars(ranges, chars);
    var rects, width, height := LayOut(face, ranges, opt, pack, uninitialised);
    pixels := new byte[height, width]((_, _) => 0);
    LayoutInside(face, ranges, opt, pack, uninitialised, baseline, width, height);
    var cropError := CompositeGlyphs(face, ranges, opt, baseline, rects[..], pixels, chars);
    ret := if opt.errorOnCrop && cropError then 0 else 1;
  }
}
