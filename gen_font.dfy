/** The parts of the gen-font script that turn the baker's JSON output into
    a GameMaker font: the list of code-point ranges, the atlas-size check
    and the conversion of each glyph record into a `GMGlyph`. */
module GenFont {
  import opened Optional
  import opened CodepointRanges

  /** One entry of the baker's `glyphs` array (the fields read here). */
  datatype FntGlyph = FntGlyph(codePoint: nat, texX: int, texY: int, texW: int, texH: int)

  /** Some glyph of the list has code point `v`. */
  predicate IsUsed(glyphs: seq<FntGlyph>, v: int) {
    exists m :: 0 <= m < |glyphs| && glyphs[m].codePoint == v
  }

  /** `used[v] === true` for the sparse array `used`. */
  predicate UsedAt(used: seq<bool>, v: int) {
    0 <= v < |used| && used[v]
  }

  /** The `forEach` that sets `used[glyph.codePoint] = true`. Assigning past
      the end of a JavaScript array extends it with holes, so its length ends
      one past the largest code point. */
  method MarkUsed(glyphs: seq<FntGlyph>) returns (used: seq<bool>)
    ensures forall v :: UsedAt(used, v) <==> IsUsed(glyphs, v)
    ensures used == [] <==> glyphs == []
    ensures used != [] ==> used[|used| - 1]
  {
    used := [];
    for n := 0 to |glyphs|
      invariant forall v :: UsedAt(used, v) <==> IsUsed(glyphs[..n], v)
      invariant used == [] <==> n == 0
      invariant used != [] ==> used[|used| - 1]
    {
      var cp := glyphs[n].codePoint;
      ghost var before := used;
      if cp >= |used| {
        used := used + seq(cp - |used|, _ => false) + [true];
      } else {
        used := used[cp := true];
      }
      forall v ensures UsedAt(used, v) <==> UsedAt(before, v) || v == cp {
        if 0 <= v < |before| {
          assert used[v] == (before[v] || v == cp);
        }
      }
      forall v ensures IsUsed(glyphs[..n + 1], v) <==> IsUsed(glyphs[..n], v) || v == cp {
        if IsUsed(glyphs[..n + 1], v) {
          var m :| 0 <= m < n + 1 && glyphs[..n + 1][m].codePoint == v;
          if m < n {
            assert glyphs[..n][m].codePoint == v;
          }
        }
        if IsUsed(glyphs[..n], v) {
          var m :| 0 <= m < n && glyphs[..n][m].codePoint == v;
          assert glyphs[..n + 1][m].codePoint == v;
        }
        if v == cp {
          assert glyphs[..n + 1][n].codePoint == v;
        }
      }
    }
    assert glyphs[..|glyphs|] == glyphs;
  }

  /** `makeRanges`: the maximal runs of the glyphs' code points, as
      `[start, end]` pairs. The scan runs one past the end of `used`, where
      the array reads as `undefined`, so a run reaching the end is closed. */
  method MakeRanges(glyphs: seq<FntGlyph>) returns (ranges: seq<Range>)
    ensures Canonical(ranges)
    ensures forall v :: Covers(ranges, v) <==> IsUsed(glyphs, v)
    ensures glyphs == [] ==> ranges == []
  {
    var used := MarkUsed(glyphs);
    ranges := [];
    var start: Option<int> := None;
    for i := 0 to |used| + 1
      invariant Canonical(ranges)
      invariant start.Some? ==> 0 <= start.value < i && forall v :: start.value <= v < i ==> UsedAt(used, v)
      invariant start.None? && i > 0 ==> !UsedAt(used, i - 1)
      invariant |ranges| > 0 ==> ranges[|ranges| - 1].end + 1 < if start.Some? then start.value else i
      invariant forall v :: Covers(ranges, v) || (start.Some? && start.value <= v < i) <==> v < i && UsedAt(used, v)
    {
      if UsedAt(used, i) {
        if start.None? {
          start := Some(i);
        }
      } else {
        if start.Some? {
          AppendRun(ranges, start.value, i - 1);
          ranges := ranges + [Range(start.value, i - 1)];
          start := None;
        }
      }
    }
    assert !UsedAt(used, |used|);
    if ranges != [] {
      FirstStartCovered(ranges);
      assert IsUsed(glyphs, ranges[0].start);
    }
  }

  /** Every code point of the glyph list lies in exactly one of the ranges. */
  lemma ExactlyOneRange(ranges: seq<Range>, glyphs: seq<FntGlyph>, v: int)
    requires Canonical(ranges) && forall u :: Covers(ranges, u) <==> IsUsed(glyphs, u)
    requires IsUsed(glyphs, v)
    ensures exists k :: 0 <= k < |ranges| && ranges[k].InRange(v)
    ensures forall j, k :: 0 <= j < |ranges| && 0 <= k < |ranges| && ranges[j].InRange(v) && ranges[k].InRange(v) ==> j == k
  {
    assert Covers(ranges, v);
    forall j, k | 0 <= j < |ranges| && 0 <= k < |ranges| && ranges[j].InRange(v) && ranges[k].InRange(v)
      ensures j == k
    {
      CanonicalDisjoint(ranges, v, j, k);
    }
  }

  /** The script and the baker coalesce alike: given the same code points,
      `makeRanges` and `generateRangesFromUsed` produce the same ranges. */
  lemma SameRangesAsBaker(fromScript: seq<Range>, fromBaker: seq<Range>, glyphs: seq<FntGlyph>, used: seq<int>)
    requires Canonical(fromScript) && forall v :: Covers(fromScript, v) <==> IsUsed(glyphs, v)
    requires Canonical(fromBaker) && forall v :: Covers(fromBaker, v) <==> v in used
    requires forall v :: v in used <==> IsUsed(glyphs, v)
    ensures fromScript == fromBaker
  {
    CanonicalUnique(fromScript, fromBaker);
  }

  // ---------------------------------------------------------------------
  // The atlas-size check.

  /** A JSON number field read from the parsed font file; a missing field
      reads as `undefined`. */
  function Field(fnt: map<string, int>, name: string): Option<int> {
    if name in fnt then Some(fnt[name]) else None
  }

  /** JavaScript's `>` with a possibly `undefined` left operand: `undefined`
      converts to NaN, and every comparison with NaN is false. */
  function Exceeds(v: Option<int>, max: int): (r: bool)
    ensures r <==> v.Some? && v.value > max
  {
    match v
    case None => false
    case Some(n) => n > max
  }

  /** The check as written: the height operand reads the field `aliasHeight`. */
  function AtlasTooLarge(fnt: map<string, int>, maxAtlasSize: int): (r: bool)
    ensures r <==> (
      || ("atlasWidth" in fnt && fnt["atlasWidth"] > maxAtlasSize)
      || ("aliasHeight" in fnt && fnt["aliasHeight"] > maxAtlasSize))
  {
    Exceeds(Field(fnt, "atlasWidth"), maxAtlasSize) || Exceeds(Field(fnt, "aliasHeight"), maxAtlasSize)
  }

  /** The header the baker writes has `atlasWidth` and `atlasHeight` and no
      `aliasHeight`: for such a file only the width is ever checked. */
  lemma HeightNeverChecked(fnt: map<string, int>, maxAtlasSize: int)
    requires "aliasHeight" !in fnt
    ensures AtlasTooLarge(fnt, maxAtlasSize) <==> "atlasWidth" in fnt && fnt["atlasWidth"] > maxAtlasSize
  {
  }

  /** An 8 by 4096 atlas passes the 2048 limit. */
  lemma TallAtlasAccepted()
    ensures !AtlasTooLarge(map["atlasWidth" := 8, "atlasHeight" := 4096], 2048)
  {
    assert "aliasHeight" != "atlasWidth" && "aliasHeight" != "atlasHeight";
  }

  /** The check with the height field the baker writes. */
  function AtlasTooLargeIntended(fnt: map<string, int>, maxAtlasSize: int): (r: bool)
    ensures "atlasWidth" in fnt && "atlasHeight" in fnt ==>
      (r <==> fnt["atlasWidth"] > maxAtlasSize || fnt["atlasHeight"] > maxAtlasSize)
  {
    Exceeds(Field(fnt, "atlasWidth"), maxAtlasSize) || Exceeds(Field(fnt, "atlasHeight"), maxAtlasSize)
  }

  /** With the intended field the 8 by 4096 atlas is refused, and an atlas
      within the limit both ways is still accepted. */
  lemma IntendedRefusesTallAtlas(w: int, h: int, maxAtlasSize: int)
    ensures AtlasTooLargeIntended(map["atlasWidth" := 8, "atlasHeight" := 4096], 2048)
    ensures w <= maxAtlasSize && h <= maxAtlasSize ==>
      !AtlasTooLargeIntended(map["atlasWidth" := w, "atlasHeight" := h], maxAtlasSize)
  {
    assert "atlasWidth" != "atlasHeight";
  }

  // ---------------------------------------------------------------------
  // The glyph records of the GameMaker font.

  /** An entry of the existing `.yy` file's `glyphs`: its `Key` and its
      `Value.id` (missing ids are `None`). */
  datatype OldGlyph = OldGlyph(key: int, id: Option<string>)

  /** The last entry with key `k`: the one `oldGlyphsByCodepoint[k]` keeps. */
  function LastWithKey(existing: seq<OldGlyph>, k: int): (r: Option<OldGlyph>)
    ensures r.Some? ==> r.value.key == k
    ensures r.None? <==> forall j :: 0 <= j < |existing| ==> existing[j].key != k
  {
    if existing == [] then None
    else if existing[|existing| - 1].key == k then Some(existing[|existing| - 1])
    else LastWithKey(existing[..|existing| - 1], k)
  }

  /** `LastWithKey` picks an entry of the list, and no later entry has its key. */
  lemma {:induction false} LastWithKeyIsLast(existing: seq<OldGlyph>, k: int)
    requires LastWithKey(existing, k).Some?
    ensures exists j :: 0 <= j < |existing| && existing[j] == LastWithKey(existing, k).value
                        && forall j' :: j < j' < |existing| ==> existing[j'].key != k
  {
    if existing[|existing| - 1].key != k {
      var front := existing[..|existing| - 1];
      LastWithKeyIsLast(front, k);
      var j :| 0 <= j < |front| && front[j] == LastWithKey(front, k).value
                && forall j' :: j < j' < |front| ==> front[j'].key != k;
      assert existing[j] == front[j];
      forall j' | j < j' < |existing|
        ensures existing[j'].key != k
      {
        if j' < |front| {
          assert existing[j'] == front[j'];
        }
      }
    } else {
      assert existing[|existing| - 1] == LastWithKey(existing, k).value;
    }
  }

  /** The `forEach` that fills `oldGlyphsByCodepoint`: a later entry
      overwrites an earlier one with the same key. */
  method IndexByKey(existing: seq<OldGlyph>) returns (byKey: map<int, OldGlyph>)
    ensures forall k :: k in byKey <==> LastWithKey(existing, k).Some?
    ensures forall k :: k in byKey ==> byKey[k] == LastWithKey(existing, k).value
  {
    byKey := map[];
    for n := 0 to |existing|
      invariant forall k :: k in byKey <==> LastWithKey(existing[..n], k).Some?
      invariant forall k :: k in byKey ==> byKey[k] == LastWithKey(existing[..n], k).value
    {
      assert existing[..n + 1][..n] == existing[..n];
      byKey := byKey[existing[n].key := existing[n]];
    }
    assert existing[..|existing|] == existing;
  }

  /** A glyph record of the GameMaker font (the fields other than the
      floating-point `offset` and `shift`, and the constant `modelName`
      and `mvc`). */
  datatype GMGlyph = GMGlyph(key: int, id: string, character: int, h: int, w: int, x: int, y: int)

  /** `oldGlyph.Value.id || uuidv4()`: a missing or empty id is replaced by `freshId`. */
  function KeptId(existing: Option<OldGlyph>, freshId: string): (id: string)
    ensures existing.Some? && existing.value.id.Some? && existing.value.id.value != "" ==> id == existing.value.id.value
    ensures existing.None? || existing.value.id.None? || existing.value.id.value == "" ==> id == freshId
  {
    match existing
    case Some(OldGlyph(_, Some(s))) => if s != "" then s else freshId
    case _ => freshId
  }

  /** The record built for one glyph of the baker's output. */
  function ToGMGlyph(g: FntGlyph, byKey: map<int, OldGlyph>, glyphHeight: int, freshId: string): GMGlyph {
    GMGlyph(
      key := g.codePoint,
      id := KeptId(if g.codePoint in byKey then Some(byKey[g.codePoint]) else None, freshId),
      character := g.codePoint,
      h := if glyphHeight != 0 then glyphHeight else g.texH,
      w := g.texW,
      x := g.texX,
      y := g.texY)
  }

  /** The `map` over `fnt.glyphs`; `freshIds[k]` is the id drawn for glyph
      `k` should it need one. */
  function ConvertGlyphs(glyphs: seq<FntGlyph>, byKey: map<int, OldGlyph>, glyphHeight: int, freshIds: seq<string>)
    : (out: seq<GMGlyph>)
    requires |freshIds| == |glyphs|
    ensures |out| == |glyphs|
  {
    seq(|glyphs|, k requires 0 <= k < |glyphs| => ToGMGlyph(glyphs[k], byKey, glyphHeight, freshIds[k]))
  }

  /** The converted list keeps the glyphs' order: record `k` is glyph `k`'s
      code point (as key and character) and texture rectangle, and its
      height is the fixed glyph height when one is given. */
  lemma ConvertKeepsGlyphs(glyphs: seq<FntGlyph>, byKey: map<int, OldGlyph>,
                           glyphHeight: int, freshIds: seq<string>, k: int)
    requires |freshIds| == |glyphs| && 0 <= k < |glyphs|
    ensures var r := ConvertGlyphs(glyphs, byKey, glyphHeight, freshIds)[k];
      && r.key == r.character == glyphs[k].codePoint
      && r.x == glyphs[k].texX && r.y == glyphs[k].texY && r.w == glyphs[k].texW
      && r.h == (if glyphHeight != 0 then glyphHeight else glyphs[k].texH)
  {
  }

  /** A glyph whose code point already has an entry with a non-empty id in
      the existing file keeps the id of the last such entry; any other glyph
      gets its fresh id. */
  lemma ConvertKeepsIds(glyphs: seq<FntGlyph>, existing: seq<OldGlyph>, byKey: map<int, OldGlyph>,
                        glyphHeight: int, freshIds: seq<string>, k: int)
    requires |freshIds| == |glyphs| && 0 <= k < |glyphs|
    requires forall c :: c in byKey <==> LastWithKey(existing, c).Some?
    requires forall c :: c in byKey ==> byKey[c] == LastWithKey(existing, c).value
    ensures var last := LastWithKey(existing, glyphs[k].codePoint);
      ConvertGlyphs(glyphs, byKey, glyphHeight, freshIds)[k].id ==
        if last.Some? && last.value.id.Some? && last.value.id.value != "" then last.value.id.value else freshIds[k]
  {
    var cp := glyphs[k].codePoint;
    if cp in byKey {
      assert byKey[cp] == LastWithKey(existing, cp).value;
    } else {
      assert LastWithKey(existing, cp).None?;
    }
  }
}
