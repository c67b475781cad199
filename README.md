# Font-atlas baker, modelled in Dafny

This project models the integer core of the font utilities: the FreeType-based
atlas baker (`font-atlas-generator.cpp`) and two helpers of the Node driver
scripts (`gen-font.js`, `make-fonts.js`).

The baker reads a UTF-8 text file and collects the code points it uses. It
coalesces them into inclusive ranges, then sizes one packing request per code
point from the glyph metrics. It grows the atlas from 8 by 8 until a
rectangle packer places every request. Each glyph bitmap is box-filtered
down by the oversample factor, its alpha is remapped, an optional grid mask
is ORed in, and the bytes are written into the packed rectangle. The atlas
is then expanded to RGBA, and strings are escaped for the JSON description.

The scripts do three things:

- `gen-font.js` re-derives the ranges from the baker's glyph list, checks
  the atlas size, and converts the glyphs into GameMaker glyph records.
- `make-fonts.js` turns camel-case option names into `--dashed-name=value`
  arguments.

Module layout, one file per part of the source:

- `bytes.dfy` (`Bytes`): bytes, C's truncating division, ceilings, powers of two, bitwise OR.
- `option.dfy` (`Optional`): `Option`.
- `options.dfy` (`BakeOptions`): the option record the baker reads.
- `ranges.dfy` (`CodepointRanges`): `struct Range` and the theory of maximal runs.
- `used_ranges.dfy` (`UsedRanges`): `generateRangesFromUsed`.
- `utf8_scan.dfy` (`Utf8Scan`, `ByteBits`): the scanner of `addUsedCodepointsFromUTF8File`, with an encoder as its partner, and the conversion between byte values and `bv8`.
- `option_text.dfy` (`OptionText`): `parse_bool`, `underscore_to_dash`, `ARG_PARSE_BOOL`.
- `json_text.dfy` (`JsonText`): `json_string`, with a JSON string decoder as its partner.
- `glyph_pixels.dfy` (`GlyphPixels`): `GetPixel`, the box filter, the alpha remap and the grid mask.
- `atlas_packing.dfy` (`AtlasPacking`): the request sizing and the growth loop of `PackFontRanges`.
- `compositor.dfy` (`AtlasCompositor`): the second pass of `PackFontRanges` and the whole function.
- `rgba.dfy` (`RgbaExpansion`): the RGBA expansion loop of `main`.
- `gen_font.dfy` (`GenFont`): `makeRanges`, the size check, the glyph conversion.
- `make_fonts.dfy` (`MakeFonts`): `camelCaseToDash` and `genFont`'s argument list.

How the source's parts are represented:

- Code that mutates things in place is a method with loop invariants. This covers:
  - the scanner, the range coalescing and `json_string`;
  - `makeRanges` and `genFont`'s argument list;
  - the steps of `PackFontRanges`, with rectangles and packed characters as
    `array`s and the atlas as an `array2<byte>` indexed [row, column];
  - the RGBA loop.
- Each such method is proved equal to a specification function. The properties
  are proved as lemmas about those functions.
- FreeType is replaced by a `Face`: a map from code points to glyph records
  with metrics, load status and bitmap.
- The stb rectangle packer is a function parameter `pack(sizes, width, height)`.
  It is assumed only to keep every placed rectangle inside the area it was given.

## Model

All `font-atlas-generator.cpp` paths are under `font-atlas-generator-freetype2/font-atlas-generator/`.

| member | source | states |
|---|---|---|
| Bytes.CDiv | font-atlas-generator-freetype2/font-atlas-generator/font-atlas-generator.cpp:627 | C's `/`: the floor quotient for a non-negative numerator, truncation toward zero for a negative one |
| Bytes.CeilDiv | font-atlas-generator-freetype2/font-atlas-generator/font-atlas-generator.cpp:628 | `(n + os - 1) / os` on a count is the least multiple-count covering `n` |
| Bytes.OrOfBytes | font-atlas-generator-freetype2/font-atlas-generator/font-atlas-generator.cpp:664-666 | the OR of two bytes is a byte no smaller than either operand |
| CodepointRanges.Range.Expand | font-atlas-generator-freetype2/font-atlas-generator/font-atlas-generator.cpp:20-24 | the code points of a range are `start`, `start + 1`, ..., `end`, all satisfying `inRange` with both ends inclusive |
| CodepointRanges.CoversAppend | font-atlas-generator-freetype2/font-atlas-generator/font-atlas-generator.cpp:157 | pushing a range adds exactly its code points to those covered |
| CodepointRanges.CanonicalDisjoint | font-atlas-generator-freetype2/font-atlas-generator/font-atlas-generator.cpp:141-160 | in ascending, non-adjacent ranges a code point lies in at most one range |
| CodepointRanges.CanonicalUnique | font-atlas-generator-freetype2/font-atlas-generator/font-atlas-generator.cpp:141-160 | two lists of maximal runs covering the same code points are equal |
| CodepointRanges.CoalesceExample | font-atlas-generator-freetype2/font-atlas-generator/font-atlas-generator.cpp:148 | the maximal runs of {2,3,4,11,12,13} are exactly (2,4) and (11,13) |
| UsedRanges.GenerateRangesFromUsed | font-atlas-generator-freetype2/font-atlas-generator/font-atlas-generator.cpp:141-160 | keeps the ranges already in the vector; appends nothing for an empty set; otherwise appends ascending, non-adjacent ranges with start ≤ end that cover exactly the set |
| Utf8Scan.LeadRanges | font-atlas-generator-freetype2/font-atlas-generator/font-atlas-generator.cpp:99-113 | the mask table matches C0..DF as a 2-byte lead, E0..EF as 3, F0..F7 as 4, with payloads of 5, 4 and 3 low bits; every other byte from 0x80 up matches nothing |
| Utf8Scan.MatchLead | font-atlas-generator-freetype2/font-atlas-generator/font-atlas-generator.cpp:103-112 | the `for m` search finds a lead exactly when the table has one, with its length and payload |
| Utf8Scan.ReadContinuation | font-atlas-generator-freetype2/font-atlas-generator/font-atlas-generator.cpp:124-131 | the continuation loop succeeds exactly when every following byte is `10xxxxxx`, and shifts each one's low six bits into the value |
| Utf8Scan.AddUsedCodepoints | font-atlas-generator-freetype2/font-atlas-generator/font-atlas-generator.cpp:79-136 | the scan loop returns the result and the set of the scan function, which skips a BOM and bytes below 32, inserts ASCII, decodes lead plus continuations and resumes after the sequence |
| Utf8Scan.DecodeOne | font-atlas-generator-freetype2/font-atlas-generator/font-atlas-generator.cpp:90-135 | one pass of the scan loop at byte `i`: on success it moves past the byte or the whole sequence, and the scan from `i` equals the scan from there with the new code point inserted; on a bad lead, a truncated sequence or a bad continuation byte the scan from `i` fails and the set is left as it was |
| Utf8Scan.ScanEncodedOne | font-atlas-generator-freetype2/font-atlas-generator/font-atlas-generator.cpp:91-134 | scanning the encoding of one code point inserts that code point, unless it is a control below 32, and continues right after it |
| Utf8Scan.ScanEncodedAll | font-atlas-generator-freetype2/font-atlas-generator/font-atlas-generator.cpp:89-136 | scanning an encoded text succeeds and inserts exactly its code points from 32 up |
| Utf8Scan.BomIsFeff | font-atlas-generator-freetype2/font-atlas-generator/font-atlas-generator.cpp:81-87 | an encoded text starts with EF BB BF exactly when its first code point is U+FEFF |
| Utf8Scan.ScanFileEncoded | font-atlas-generator-freetype2/font-atlas-generator/font-atlas-generator.cpp:79-136 | the file scan of an encoded text succeeds and inserts its code points from 32 up, dropping one leading U+FEFF |
| Utf8Scan.BadLeadRejected | font-atlas-generator-freetype2/font-atlas-generator/font-atlas-generator.cpp:114-117 | a byte from 0x80 up that is a continuation byte or F8..FF stops the scan with failure |
| Utf8Scan.TruncatedRejected | font-atlas-generator-freetype2/font-atlas-generator/font-atlas-generator.cpp:119-122 | any lead byte with fewer bytes left than its sequence needs (a lone `E3`, `F0 90`) stops the scan with failure and the set unchanged |
| Utf8Scan.EncodedLead | font-atlas-generator-freetype2/font-atlas-generator/font-atlas-generator.cpp:104-111 | the first byte of every multi-byte encoding is a lead byte whose table entry announces the encoding's length |
| Utf8Scan.EncodingCutShortRejected | font-atlas-generator-freetype2/font-atlas-generator/font-atlas-generator.cpp:119-122 | the encoding of any multi-byte code point with its last byte missing is rejected |
| Utf8Scan.ContinuationFailsAt | font-atlas-generator-freetype2/font-atlas-generator/font-atlas-generator.cpp:124-129 | the continuation loop fails at the first byte that is not `10xxxxxx`, whatever it has accumulated |
| Utf8Scan.BadContinuationRejected | font-atlas-generator-freetype2/font-atlas-generator/font-atlas-generator.cpp:124-129 | a lead whose sequence has, at any position `j` after continuation bytes only, a byte that is not `10xxxxxx` (`C3 41`, `E3 81 41`, `F0 90 80 41`) stops the scan with failure and the set unchanged |
| Utf8Scan.ScanOnlyInserts | font-atlas-generator-freetype2/font-atlas-generator/font-atlas-generator.cpp:94-133 | the scan only inserts: on success and on failure, the set contains everything it held before |
| Utf8Scan.AcceptsOverlong | font-atlas-generator-freetype2/font-atlas-generator/font-atlas-generator.cpp:99-133 | the overlong form C0 80 is accepted as code point 0, which section 3 of RFC 3629 forbids |
| Utf8Scan.AcceptsSurrogate | font-atlas-generator-freetype2/font-atlas-generator/font-atlas-generator.cpp:99-133 | ED A0 80 is accepted as the surrogate U+D800 |
| Utf8Scan.AcceptsBeyondUnicode | font-atlas-generator-freetype2/font-atlas-generator/font-atlas-generator.cpp:99-133 | F4 90 80 80 is accepted as 0x110000, beyond U+10FFFF |
| OptionText.ParseBool | font-atlas-generator-freetype2/font-atlas-generator/font-atlas-generator.cpp:162-172 | a value is produced exactly for the words "true" and "false" |
| OptionText.ParseBoolInverse | font-atlas-generator-freetype2/font-atlas-generator/font-atlas-generator.cpp:162-172 | an argument parses to `b` exactly when it is the word for `b` |
| OptionText.UnderscoreToDash | font-atlas-generator-freetype2/font-atlas-generator/font-atlas-generator.cpp:174-178 | same length, no '_' left, each '_' becomes '-', every other character is kept in place |
| OptionText.UnderscoreToDashIdempotent | font-atlas-generator-freetype2/font-atlas-generator/font-atlas-generator.cpp:174-178 | applying the replacement twice equals applying it once |
| OptionText.BoolFlagNames | font-atlas-generator-freetype2/font-atlas-generator/font-atlas-generator.cpp:200-204 | the five boolean options are spelled `--verbose`, `--show-grid`, `--light`, `--ignore-errors`, `--error-on-crop` |
| OptionText.ParseBoolFlag | font-atlas-generator-freetype2/font-atlas-generator/font-atlas-generator.cpp:180-186 | the macro claims the option exactly when it is the dashed flag; it sets the field exactly when the value parses, and then the value is that truth value's word |
| OptionText.UnderscoreSpellingRefused | font-atlas-generator-freetype2/font-atlas-generator/font-atlas-generator.cpp:180-186 | an option spelled with '_' is never claimed by a boolean flag |
| JsonText.Escape | font-atlas-generator-freetype2/font-atlas-generator/font-atlas-generator.cpp:344-360 | the escaped text is longer than the input by exactly the number of characters preceded by a backslash |
| JsonText.EscapeConcat | font-atlas-generator-freetype2/font-atlas-generator/font-atlas-generator.cpp:344-360 | escaping works character by character: escaping a concatenation concatenates the escapes |
| JsonText.JsonString | font-atlas-generator-freetype2/font-atlas-generator/font-atlas-generator.cpp:341-365 | the `push_back` loop returns the escaped text between two quotes, of length \|s\| + escapes + 2 |
| JsonText.UnescapeEscape | font-atlas-generator-freetype2/font-atlas-generator/font-atlas-generator.cpp:341-365 | dropping each escaping backslash gives back the input: no character is lost or reordered |
| JsonText.EscapeValidIff | font-atlas-generator-freetype2/font-atlas-generator/font-atlas-generator.cpp:344-360 | a JSON decoder (section 7 of RFC 8259) reads the output back as the input exactly when the input has no control character; otherwise it rejects it |
| JsonText.NewlineNotEscaped | font-atlas-generator-freetype2/font-atlas-generator/font-atlas-generator.cpp:350-355 | "a\nb" is written as a backslash before a raw newline, which a JSON decoder rejects |
| JsonText.EscapeRfc | font-atlas-generator-freetype2/font-atlas-generator/font-atlas-generator.cpp:341-365 | the corrected escaping leaves no raw control character in its output |
| JsonText.DecodeEscapeRfc | font-atlas-generator-freetype2/font-atlas-generator/font-atlas-generator.cpp:341-365 | a JSON decoder reads the corrected escaping of any string back as that string |
| GlyphPixels.GetPixel | font-atlas-generator-freetype2/font-atlas-generator/font-atlas-generator.cpp:411-427 | a byte; 0 outside the bitmap; 0 or 255 in mono mode; 0 for an unknown pixel mode |
| GlyphPixels.GetPixelGray | font-atlas-generator-freetype2/font-atlas-generator/font-atlas-generator.cpp:420-421 | in grey mode the pixel is the buffer byte at `y * pitch + x`, which lies inside the buffer |
| GlyphPixels.BlockSum | font-atlas-generator-freetype2/font-atlas-generator/font-atlas-generator.cpp:649-654 | the sum over an `os` by `m` block lies in [0, 255 · os · m] |
| GlyphPixels.SamplePixel | font-atlas-generator-freetype2/font-atlas-generator/font-atlas-generator.cpp:648-655 | the `yy`/`xx` loops and the rounding division compute the box-filtered value, which is a byte |
| GlyphPixels.DownsampledNoOversample | font-atlas-generator-freetype2/font-atlas-generator/font-atlas-generator.cpp:648-655 | with oversample 1 the filter returns the bitmap pixel itself |
| GlyphPixels.BlockOutsideIsZero | font-atlas-generator-freetype2/font-atlas-generator/font-atlas-generator.cpp:648-655 | a block entirely below the bitmap filters to 0 |
| GlyphPixels.Remap | font-atlas-generator-freetype2/font-atlas-generator/font-atlas-generator.cpp:657-662 | the remapped coverage is a byte |
| GlyphPixels.RemapMonotone | font-atlas-generator-freetype2/font-atlas-generator/font-atlas-generator.cpp:657-662 | both the linear stretch and the threshold keep the order of coverage values |
| GlyphPixels.RemapEnds | font-atlas-generator-freetype2/font-atlas-generator/font-atlas-generator.cpp:658-659 | with a range above 1, `alpha_min` and below map to 0, `alpha_max` and above to 255 |
| GlyphPixels.RemapThreshold | font-atlas-generator-freetype2/font-atlas-generator/font-atlas-generator.cpp:660-661 | with a range of at most 1 the result is 255 exactly above `alpha_min`, 0 otherwise |
| GlyphPixels.RemapDefaultIsIdentity | font-atlas-generator-freetype2/font-atlas-generator/font-atlas-generator.cpp:657-662 | with bounds 0 and 255 every byte is left as it is |
| GlyphPixels.GridMask | font-atlas-generator-freetype2/font-atlas-generator/font-atlas-generator.cpp:664-666 | the mask `masks[k % 3]` (table at line 642) is a byte |
| GlyphPixels.ShadeWithGrid | font-atlas-generator-freetype2/font-atlas-generator/font-atlas-generator.cpp:657-667 | the written byte is at least the remapped coverage, and with the grid on at least the mask |
| AtlasPacking.RangeCodepoints | font-atlas-generator-freetype2/font-atlas-generator/font-atlas-generator.cpp:477-481 | offset `j` of a pack range stands for code point `first + j`, for `num_chars` offsets |
| AtlasPacking.CodepointAt | font-atlas-generator-freetype2/font-atlas-generator/font-atlas-generator.cpp:474-504 | request `k` is range `i`, offset `j`, where `k` counts the characters of the earlier ranges plus `j`, and its code point is `first + j` |
| AtlasPacking.CountChars | font-atlas-generator-freetype2/font-atlas-generator/font-atlas-generator.cpp:461-464 | `num_chars` is the number of requests |
| AtlasPacking.PackRangesOf | font-atlas-generator-freetype2/font-atlas-generator/font-atlas-generator.cpp:745-760 | each `Range` becomes a pack range standing for exactly the code points of the range |
| AtlasPacking.RequestsCoverRanges | font-atlas-generator-freetype2/font-atlas-generator/font-atlas-generator.cpp:745-760 | a code point gets a request exactly when one of the ranges covers it |
| AtlasPacking.CeilPixelsIsCeiling | font-atlas-generator-freetype2/font-atlas-generator/font-atlas-generator.cpp:492-493 | `(v + 63) >> 6` is the 26.6 value rounded up to whole pixels |
| AtlasPacking.RequestCoversGlyph | font-atlas-generator-freetype2/font-atlas-generator/font-atlas-generator.cpp:492 | a request is `2 · padding` plus the rounded-down quotient of the glyph's pixel width by the oversample |
| AtlasPacking.Sized | font-atlas-generator-freetype2/font-atlas-generator/font-atlas-generator.cpp:482-501 | a missing glyph gets a 0 by 0 request; the position and packed flag are untouched |
| AtlasPacking.SizeRequests | font-atlas-generator-freetype2/font-atlas-generator/font-atlas-generator.cpp:474-506 | request `k` is sized from the glyph of the `k`-th code point: from its metrics when present and loaded, 0 by 0 when missing, unchanged when loading fails |
| AtlasPacking.ApplyGlyphHeight | font-atlas-generator-freetype2/font-atlas-generator/font-atlas-generator.cpp:508-513 | a non-zero `glyph_height` becomes the height of every request, missing glyphs included; nothing else changes |
| AtlasPacking.RequestHeights | font-atlas-generator-freetype2/font-atlas-generator/font-atlas-generator.cpp:491-513 | a request's height is `glyph_height` when that is set, and 0 for a missing glyph otherwise |
| AtlasPacking.SizesOf | font-atlas-generator-freetype2/font-atlas-generator/font-atlas-generator.cpp:550 | the packer sees each request's width and height, in order |
| AtlasPacking.Placed | font-atlas-generator-freetype2/font-atlas-generator/font-atlas-generator.cpp:550 | the packer writes position and packed flag into each request and keeps its size |
| AtlasPacking.AllWerePacked | font-atlas-generator-freetype2/font-atlas-generator/font-atlas-generator.cpp:553-561 | the check loop reports success exactly when every request was packed |
| AtlasPacking.GrowDoublesArea | font-atlas-generator-freetype2/font-atlas-generator/font-atlas-generator.cpp:566-572 | one growth step doubles the area, so it strictly increases |
| AtlasPacking.GrowNClosedForm | font-atlas-generator-freetype2/font-atlas-generator/font-atlas-generator.cpp:515-576 | after `n` steps from 8 by 8 the atlas is 2^(3+⌈n/2⌉) wide and 2^(3+⌊n/2⌋) high |
| AtlasPacking.GrowNArea | font-atlas-generator-freetype2/font-atlas-generator/font-atlas-generator.cpp:515-576 | after `n` steps the area is 64 · 2^n |
| AtlasPacking.GrowNAtLeastSeed | font-atlas-generator-freetype2/font-atlas-generator/font-atlas-generator.cpp:515-517 | the atlas never shrinks below the 8 by 8 seed |
| AtlasPacking.ChooseAtlasSize | font-atlas-generator-freetype2/font-atlas-generator/font-atlas-generator.cpp:515-580 | fixed mode tries the given size once and succeeds exactly when everything packs; auto mode (`atlas_width == 0`) ends on the first size of the growth sequence at which everything packs |
| AtlasCompositor.TopRoundsUp | font-atlas-generator-freetype2/font-atlas-generator/font-atlas-generator.cpp:627 | for a bitmap top at or above the baseline, `(top + os - 1) / os` is the ceiling of `top / os` |
| AtlasCompositor.NegativeTopRounding | font-atlas-generator-freetype2/font-atlas-generator/font-atlas-generator.cpp:627 | below the baseline the truncating division does not round up: top -2 at oversample 2 gives 0 |
| AtlasCompositor.CropRows | font-atlas-generator-freetype2/font-atlas-generator/font-atlas-generator.cpp:626-641 | the crop as written: the rows lie in [0, rect.h); `crop_error` is set exactly when the start is negative or the adjusted end passes rect.h; an uncropped glyph keeps all its rows |
| AtlasCompositor.CropRowsInside | font-atlas-generator-freetype2/font-atlas-generator/font-atlas-generator.cpp:645-646 | every row offset written lies in [0, rect.h) |
| AtlasCompositor.TopCropLosesTwice | font-atlas-generator-freetype2/font-atlas-generator/font-atlas-generator.cpp:626-653 | as written, a glyph sticking out `d` rows at the top loses `2d` rows, all from its bottom |
| AtlasCompositor.CropRowsIntended | font-atlas-generator-freetype2/font-atlas-generator/font-atlas-generator.cpp:626-653 | the corrected crop: rectangle row `r` is written exactly when it lies in [0, rect.h) and in the glyph's rows, and it shows source row `r - dst_y_start` |
| AtlasCompositor.TopCroppedJob | font-atlas-generator-freetype2/font-atlas-generator/font-atlas-generator.cpp:626-653 | as written, a glyph sticking out `d` rows at the top is written from the top of its rectangle with only `R - 2d` rows, starting at source row 0, and sets `crop_error` |
| AtlasCompositor.CropFlagUnchanged | font-atlas-generator-freetype2/font-atlas-generator/font-atlas-generator.cpp:629-640 | the corrected crop sets `crop_error` exactly when the crop as written does |
| AtlasCompositor.U16 | font-atlas-generator-freetype2/font-atlas-generator/font-atlas-generator.cpp:671-674 | storing into an `unsigned short` gives a value in [0, 65536), unchanged when it already fits |
| AtlasCompositor.TexOfRendered | font-atlas-generator-freetype2/font-atlas-generator/font-atlas-generator.cpp:671-674 | for a rendered glyph the emitted tex is (rect.x + p, rect.y + p, rect.w − 3p + 2, rect.h − 3p + 2), as the JSON writer at lines 863-866 computes it from the record set here |
| AtlasCompositor.TexOfCleared | font-atlas-generator-freetype2/font-atlas-generator/font-atlas-generator.cpp:452-459 | a cleared packed char is emitted as tex (0, 0, 1, 1) by the JSON writer at lines 863-866 |
| AtlasCompositor.RenderGlyph | font-atlas-generator-freetype2/font-atlas-generator/font-atlas-generator.cpp:646-669 | the `y`/`x` loops write the shade of every cell of the glyph's window, sampled from source row 0 down, and leave every other atlas byte unchanged |
| AtlasCompositor.UncoveredIsZero | font-atlas-generator-freetype2/font-atlas-generator/font-atlas-generator.cpp:583-587 | a byte no glyph window covers keeps the 0 of the fresh buffer |
| AtlasCompositor.LastWriterWins | font-atlas-generator-freetype2/font-atlas-generator/font-atlas-generator.cpp:590-686 | a byte holds the shade of the last glyph whose window covers it |
| AtlasCompositor.LastWriterStep | font-atlas-generator-freetype2/font-atlas-generator/font-atlas-generator.cpp:595-684 | the atlas after `k + 1` requests is the atlas after `k` with request `k`'s window written over it |
| AtlasCompositor.CompositeChar | font-atlas-generator-freetype2/font-atlas-generator/font-atlas-generator.cpp:600-681 | one request: a missing glyph changes nothing; a load failure clears its packed char; a rendered glyph writes its window as the source crops it (a top crop also shortens the end, and the rows come from source row 0) and the inset rectangle; the result is whether it was cropped |
| AtlasCompositor.CompositeGlyphs | font-atlas-generator-freetype2/font-atlas-generator/font-atlas-generator.cpp:590-686 | over a zeroed atlas, every byte ends as the last covering glyph left it, each glyph's window cropped as the source crops it; every packed char is set as the request demands; `crop_error` is set exactly when some rendered glyph was cropped |
| AtlasCompositor.CompositeRange | font-atlas-generator-freetype2/font-atlas-generator/font-atlas-generator.cpp:593-683 | the requests of range `i` are numbered on from `k`, and after them the atlas, the records and `crop_error` are as the last-writer specification, over the windows as the source crops them, says for the first `k + num_chars` requests |
| AtlasCompositor.CompositeNext | font-atlas-generator-freetype2/font-atlas-generator/font-atlas-generator.cpp:595-682 | one request: the atlas, the records and `crop_error` go from the specification after `k` requests to the one after `k + 1`, request `k` writing its window as the source crops it |
| AtlasCompositor.ClearPackedChars | font-atlas-generator-freetype2/font-atlas-generator/font-atlas-generator.cpp:451-459 | every packed char starts as (0, 0, 0, 0) |
| AtlasCompositor.LayoutIn | font-atlas-generator-freetype2/font-atlas-generator/font-atlas-generator.cpp:550 | the packer's layout has one placed rectangle per request |
| AtlasCompositor.JobInside | font-atlas-generator-freetype2/font-atlas-generator/font-atlas-generator.cpp:645-647 | a glyph packed inside `width − p` by `height − p` writes only inside the atlas |
| AtlasCompositor.LayoutInside | font-atlas-generator-freetype2/font-atlas-generator/font-atlas-generator.cpp:553-587 | when every request was packed, every rendered glyph's window lies inside the atlas |
| AtlasCompositor.SizeAll | font-atlas-generator-freetype2/font-atlas-generator/font-atlas-generator.cpp:466-513 | the requests array holds the sized requests, `glyph_height` applied |
| AtlasCompositor.PlaceAll | font-atlas-generator-freetype2/font-atlas-generator/font-atlas-generator.cpp:405-408 | the packer's placements are written into the requests |
| AtlasCompositor.GrowAndPlace | font-atlas-generator-freetype2/font-atlas-generator/font-atlas-generator.cpp:515-580 | auto growth ends on the first fitting size, at least 8 by 8, with the requests holding the packer's layout for it |
| AtlasCompositor.LayOut | font-atlas-generator-freetype2/font-atlas-generator/font-atlas-generator.cpp:466-580 | sizing then growth: the requests hold the layout at the first fitting size |
| AtlasCompositor.PackFontRanges | font-atlas-generator-freetype2/font-atlas-generator/font-atlas-generator.cpp:438-697 | in auto mode, the fresh atlas has the first fitting size of the growth sequence; each byte is what the last covering glyph wrote with its window cropped as the source crops it, 0 where none did; the packed chars are set per request; the result is 0 exactly when `error_on_crop` is set and some glyph was cropped, else 1 |
| RgbaExpansion.Texel | font-atlas-generator-freetype2/font-atlas-generator/font-atlas-generator.cpp:784-789 | four bytes: the debug colour where alpha is non-zero, black otherwise, then the alpha |
| RgbaExpansion.RowMajorAt | font-atlas-generator-freetype2/font-atlas-generator/font-atlas-generator.cpp:783-785 | atlas row `y`, column `x` is byte `y · width + x` of the pixel vector |
| RgbaExpansion.ExpandedAt | font-atlas-generator-freetype2/font-atlas-generator/font-atlas-generator.cpp:784-789 | byte `4i + ch` of the image is channel `ch` of the texel of atlas byte `i` |
| RgbaExpansion.AlphaRoundTrip | font-atlas-generator-freetype2/font-atlas-generator/font-atlas-generator.cpp:779-791 | the alpha channel of the image is exactly the atlas |
| RgbaExpansion.ColourMarksCoverage | font-atlas-generator-freetype2/font-atlas-generator/font-atlas-generator.cpp:786-788 | a texel is black where the atlas is 0 and the debug colour elsewhere |
| RgbaExpansion.WriteTexel | font-atlas-generator-freetype2/font-atlas-generator/font-atlas-generator.cpp:786-789 | the four assignments write one texel and nothing else |
| RgbaExpansion.ExpandToRgba | font-atlas-generator-freetype2/font-atlas-generator/font-atlas-generator.cpp:779-791 | the nested loops fill a fresh buffer with the texel of every atlas byte, in row-major order |
| RgbaExpansion.ExpandRow | font-atlas-generator-freetype2/font-atlas-generator/font-atlas-generator.cpp:782-790 | the inner loop for row `y` extends the correctly filled prefix of the image from `y` rows to `y + 1` rows |
| GenFont.MarkUsed | gen-font/gen-font.js:165-168 | `used[v] === true` exactly for the glyphs' code points; the array is empty exactly for no glyphs and ends on a used entry |
| GenFont.MakeRanges | gen-font/gen-font.js:164-186 | the pairs are ascending, start ≤ end, separated by an unused code point, and cover exactly the glyphs' code points; no glyphs give [] |
| GenFont.ExactlyOneRange | gen-font/gen-font.js:166-184 | every glyph's code point lies in exactly one returned range |
| GenFont.SameRangesAsBaker | gen-font/gen-font.js:164-186 | the script's ranges equal the baker's ranges for the same code points |
| GenFont.Exceeds | gen-font/gen-font.js:109 | `>` with an `undefined` left operand is false; otherwise it is the comparison |
| GenFont.AtlasTooLarge | gen-font/gen-font.js:109-111 | as written: too large exactly when `atlasWidth` or `aliasHeight` is present and above the limit |
| GenFont.HeightNeverChecked | gen-font/gen-font.js:109-111 | without an `aliasHeight` field only the width is checked |
| GenFont.TallAtlasAccepted | gen-font/gen-font.js:109-111 | an 8 by 4096 atlas passes a 2048 limit |
| GenFont.AtlasTooLargeIntended | gen-font/gen-font.js:109-111 | corrected: too large exactly when the width or the height exceeds the limit |
| GenFont.IntendedRefusesTallAtlas | gen-font/gen-font.js:109-111 | the corrected check refuses 8 by 4096 and accepts any atlas within the limit |
| GenFont.LastWithKey | gen-font/gen-font.js:119-122 | the entry kept for a key has that key; there is none exactly when no entry has it |
| GenFont.LastWithKeyIsLast | gen-font/gen-font.js:119-122 | the entry kept is an entry of the list, and no later entry has its key |
| GenFont.IndexByKey | gen-font/gen-font.js:119-122 | the `forEach` yields a map whose keys are the entries' keys, each mapped to the last entry with it |
| GenFont.KeptId | gen-font/gen-font.js:125-129 | a present, non-empty old id is kept; a missing glyph, missing id or empty id takes the fresh id |
| GenFont.ConvertGlyphs | gen-font/gen-font.js:124-141 | one record per glyph |
| GenFont.ConvertKeepsGlyphs | gen-font/gen-font.js:124-139 | record `k` is glyph `k`'s: key and character are its code point; w, x, y come from its tex; h is `glyphHeight` when non-zero, else tex h |
| GenFont.ConvertKeepsIds | gen-font/gen-font.js:119-129 | record `k` keeps the id of the last existing entry with its code point when that id is non-empty, else gets fresh id `k` |
| MakeFonts.Lower | make-fonts/make-fonts.js:67 | `toLowerCase` takes a capital to a small letter |
| MakeFonts.CamelCaseToDash | make-fonts/make-fonts.js:66-68 | the result has no capital, and is longer than the input by the number of capitals |
| MakeFonts.NoUpperUnchanged | make-fonts/make-fonts.js:67 | a string without capitals is returned unchanged |
| MakeFonts.DashRoundTrip | make-fonts/make-fonts.js:66-68 | for a name without '-', reading the dashes back as capitals restores the name, so each capital became '-' plus its small letter and all else was kept in order |
| MakeFonts.GenFontArgs | make-fonts/make-fonts.js:53-61 | the list is the script path, the project path, then one `--dashed-key=value` per entry in entry order |
| MakeFonts.ArgRoundTrip | make-fonts/make-fonts.js:59-61 | an argument built from a key without '-' or '=' reads back as that key and value |
| MakeFonts.DashedHasNoEquals | make-fonts/make-fonts.js:67 | dashing adds no '=', so the first '=' of an argument ends the name |

## Left out

- The scanner's file read (`readFile`) and the failure it returns: the scanner takes the file's bytes as input.
- FreeType calls are replaced by the `Face` input: character-to-index lookup, loading, rendering, face and size setup.
- The bitmap pitch is taken as non-negative. FreeType allows a negative pitch for bottom-up bitmaps.
- The stb rectangle packer is a parameter, assumed to keep placements inside the area it is given. `PackBegin`/`PackEnd` allocation is not modelled.
- The requests array before sizing is `malloc` memory: it is an input (`uninitialised`), and a glyph that fails to load leaves its request as it was.
- Rectangle width and height are stored in `stbrp_coord`, which truncates; sizes are unbounded here.
- AtlasCompositor.PackFontRanges: models auto-size mode only. Fixed-size mode never binds the pixel buffer in the source; its packing outcome is modelled in `AtlasPacking.ChooseAtlasSize`.
- AtlasCompositor.PackFontRanges, AtlasCompositor.LayOut, AtlasCompositor.GrowAndPlace, AtlasPacking.ChooseAtlasSize: require that some size of the growth sequence fits every request (`exists n :: FitsAt`). Otherwise the source keeps doubling its `int` width and height; growth ends when `PackBegin` cannot allocate its `pw - padding` nodes (the function then returns 0) or when the doubling overflows after about 28 steps. That exit is not modelled.
- AtlasCompositor.CropRowsIntended: the corrected crop is stated and proved for one glyph only; the compositor and `PackFontRanges` write the crop as the source does.
- AtlasCompositor.PackFontRanges: requires that each bitmap's oversampled width fits its request (`GlyphsFit`). The source does not clip columns.
- BakeOptions.Valid: also requires non-negative padding, glyph height and atlas sizes, which the command-line parser does not check.
- `parse_command_line`'s integer and float argument parsing is not modelled. Only the boolean flags (`ARG_PARSE_BOOL`) are.
- Code points come from the range start plus the offset. `array_of_unicode_codepoints` is never set by `main`.
- AtlasPacking.PackRangesOf: requires start ≤ end for every range. This always holds in the source: the command line rejects `end < start`, and the ranges packed come from `generateRangesFromUsed`.
- The dead in-order packer (`if (false && ...)`) is not modelled.
- Floating-point fields are not modelled: `xadvance`, `xoff`, `yoff`, the `-123456` sentinels, the font size and shifts, and `Math.round` of `xAdvance`.
- Output is not modelled: the JSON and PNG writing, the `.yy` rewrite and the file copies. So is logging: warnings, verbose output and `DumpBitmap`. Crop warnings appear only as the `crop_error` flag.
- In the scripts, the following are not modelled: `execFile`, fs and option parsing, the regex font filter, `addBOMToUTF8` and `xmlToJSON`.
- `uuidv4` randomness is replaced by a sequence of fresh ids, one per glyph.
- GenFont.ConvertGlyphs: `offset` and `shift` are floats and are left out of the record.
- MakeFonts.GenFontArgs: option values are taken as already-stringified text (the template literal's `${value}`).
- The JSON number fields of the parsed font file are integers in the model (`map<string, int>`).

## Findings

| source | as written | input that shows it | evidently intended | confidence | as-written member | corrected member |
|---|---|---|---|---|---|---|
| font-atlas-generator-freetype2/font-atlas-generator/font-atlas-generator.cpp:341-365 | `json_string` puts a backslash before raw `\b`, `\f`, `\n`, `\r`, `\t` and leaves other control characters raw | "a\nb" gives `"a\` newline `b"`, which a JSON decoder rejects | control characters written as `\n`, `\uXXXX` etc., as section 7 of RFC 8259 requires | high (not executed) | JsonText.EscapeValidIff | JsonText.DecodeEscapeRfc |
| gen-font/gen-font.js:109-111 | the height operand reads `fnt.aliasHeight`, a field the baker never writes | an 8 by 4096 atlas with `maxAtlasSize` 2048 is accepted | compare `fnt.atlasHeight`, as the error message does | high (not executed) | GenFont.TallAtlasAccepted | GenFont.IntendedRefusesTallAtlas |
| font-atlas-generator-freetype2/font-atlas-generator/font-atlas-generator.cpp:626-653 | a top crop adds the negative start to the end and also moves the start to 0; `src_y_start` is never read, so sampling starts at source row 0 | a glyph 10 rows tall sticking out 2 rows at the top gets 6 rows written, source rows 0..5 | write rows 0..7 from source rows 2..9 | medium (not executed) | AtlasCompositor.TopCropLosesTwice | AtlasCompositor.CropRowsIntended |
