/** Inclusive code-point ranges (`struct Range` of the C++ baker, and the
    `[start, end]` pairs of the gen-font script), and what it means for a
    list of them to be the coalesced form of a set of code points. */
module CodepointRanges {

  datatype Range = Range(start: int, end: int)
  {
    /** `Range::inRange`: both ends are inclusive. */
    predicate InRange(v: int) {
      start <= v <= end
    }

    /** The code points the range stands for, in ascending order; `main`
        sizes each packing range by `end - start + 1`. */
    function Expand(): (cps: seq<int>)
      ensures |cps| == if start <= end then end - start + 1 else 0
      ensures forall j :: 0 <= j < |cps| ==> cps[j] == start + j && InRange(cps[j])
      decreases end - start
    {
      if start > end then [] else [start] + Range(start + 1, end).Expand()
    }
  }

  /** Some range of `rs` contains `v`. */
  predicate Covers(rs: seq<Range>, v: int) {
    exists k :: 0 <= k < |rs| && rs[k].InRange(v)
  }

  lemma CoversAppend(rs: seq<Range>, r: Range, v: int)
    ensures Covers(rs + [r], v) <==> Covers(rs, v) || r.InRange(v)
  {
    if Covers(rs, v) {
      var k :| 0 <= k < |rs| && rs[k].InRange(v);
      assert (rs + [r])[k] == rs[k];
    }
    if r.InRange(v) {
      assert (rs + [r])[|rs|] == r;
    }
    if Covers(rs + [r], v) {
      var k :| 0 <= k < |rs| + 1 && (rs + [r])[k].InRange(v);
      if k < |rs| {
        assert rs[k] == (rs + [r])[k];
      }
    }
  }

  /** Ascending, non-empty, pairwise non-adjacent ranges: the form of maximal runs. */
  predicate Canonical(rs: seq<Range>) {
    && (forall k :: 0 <= k < |rs| ==> rs[k].start <= rs[k].end)
    && (forall j, k :: 0 <= j < k < |rs| ==> rs[j].end + 1 < rs[k].start)
  }

  /** Appending a run that starts more than one past the last run keeps the
      list canonical and adds exactly that run to what it covers. */
  lemma AppendRun(rs: seq<Range>, lo: int, hi: int)
    requires Canonical(rs) && lo <= hi
    requires |rs| > 0 ==> rs[|rs| - 1].end + 1 < lo
    ensures Canonical(rs + [Range(lo, hi)])
    ensures (rs + [Range(lo, hi)])[|rs|] == Range(lo, hi)
    ensures forall v :: Covers(rs + [Range(lo, hi)], v) <==> Covers(rs, v) || lo <= v <= hi
  {
    forall v ensures Covers(rs + [Range(lo, hi)], v) <==> Covers(rs, v) || lo <= v <= hi {
      CoversAppend(rs, Range(lo, hi), v);
    }
  }

  /** `rs` is the list of maximal runs of the set described by `inSet`. */
  ghost predicate RunsOf(rs: seq<Range>, inSet: set<int>) {
    Canonical(rs) && forall v :: Covers(rs, v) <==> v in inSet
  }

  lemma FirstStartCovered(rs: seq<Range>)
    requires Canonical(rs) && |rs| > 0
    ensures Covers(rs, rs[0].start) && Covers(rs, rs[0].end)
  {
    assert rs[0].InRange(rs[0].start) && rs[0].InRange(rs[0].end);
  }

  lemma CoveredAboveFirst(rs: seq<Range>, v: int)
    requires Canonical(rs) && Covers(rs, v)
    ensures rs[0].start <= v
    ensures v <= rs[0].end + 1 ==> rs[0].InRange(v)
  {
    var k :| 0 <= k < |rs| && rs[k].InRange(v);
    if k > 0 {
      assert rs[0].end + 1 < rs[k].start;
    }
  }

  lemma CoversTail(rs: seq<Range>, v: int)
    requires Canonical(rs) && |rs| > 0
    ensures Canonical(rs[1..])
    ensures Covers(rs[1..], v) <==> Covers(rs, v) && v > rs[0].end + 1
  {
    if Covers(rs[1..], v) {
      var k :| 0 <= k < |rs| - 1 && rs[1..][k].InRange(v);
      assert rs[k + 1].InRange(v);
      assert rs[0].end + 1 < rs[k + 1].start;
    }
    if Covers(rs, v) && v > rs[0].end + 1 {
      var k :| 0 <= k < |rs| && rs[k].InRange(v);
      assert k != 0;
      assert rs[1..][k - 1] == rs[k];
    }
  }

  /** In an ascending, non-adjacent list a code point lies in at most one range. */
  lemma CanonicalDisjoint(rs: seq<Range>, v: int, j: int, k: int)
    requires Canonical(rs) && 0 <= j < |rs| && 0 <= k < |rs|
    requires rs[j].InRange(v) && rs[k].InRange(v)
    ensures j == k
  {
  }

  /** Maximal runs are unique: two canonical lists that cover the same code
      points are the same list. So any two correct coalescers agree. */
  lemma {:induction false} CanonicalUnique(a: seq<Range>, b: seq<Range>)
    requires Canonical(a) && Canonical(b)
    requires forall v :: Covers(a, v) <==> Covers(b, v)
    ensures a == b
    decreases |a|
  {
    if a != [] {
      FirstStartCovered(a);
    }
    if b != [] {
      FirstStartCovered(b);
    }
    assert a == [] <==> b == [];
    if a != [] {
      SameFirstRun(a, b);
      forall v ensures Covers(a[1..], v) <==> Covers(b[1..], v) {
        CoversTail(a, v);
        CoversTail(b, v);
      }
      CoversTail(a, 0);
      CoversTail(b, 0);
      CanonicalUnique(a[1..], b[1..]);
      assert a == [a[0]] + a[1..];
      assert b == [b[0]] + b[1..];
    }
  }

  /** Two canonical lists that cover the same code points start with the same run. */
  lemma SameFirstRun(a: seq<Range>, b: seq<Range>)
    requires Canonical(a) && Canonical(b) && a != [] && b != []
    requires forall v :: Covers(a, v) <==> Covers(b, v)
    ensures a[0] == b[0]
  {
    FirstStartCovered(a);
    FirstStartCovered(b);
    CoveredAboveFirst(b, a[0].start);
    CoveredAboveFirst(a, b[0].start);
    assert a[0].start == b[0].start;
    if a[0].end < b[0].end {
      assert b[0].InRange(a[0].end + 1) && Covers(b, a[0].end + 1);
      CoveredAboveFirst(a, a[0].end + 1);
      assert false;
    }
    if b[0].end < a[0].end {
      assert a[0].InRange(b[0].end + 1) && Covers(a, b[0].end + 1);
      CoveredAboveFirst(b, b[0].end + 1);
      assert false;
    }
  }

  /** The coalescing example of the baker's comment: {2,3,4,11,12,13}
      has exactly one list of maximal runs, [(2,4), (11,13)]. */
  lemma CoalesceExample(rs: seq<Range>)
    requires RunsOf(rs, {2, 3, 4, 11, 12, 13})
    ensures rs == [Range(2, 4), Range(11, 13)]
  {
    var expected := [Range(2, 4), Range(11, 13)];
    forall v ensures Covers(expected, v) <==> v in {2, 3, 4, 11, 12, 13} {
      if Covers(expected, v) {
        var k :| 0 <= k < 2 && expected[k].InRange(v);
      }
      if v in {2, 3, 4} {
        assert expected[0].InRange(v);
      }
      if v in {11, 12, 13} {
        assert expected[1].InRange(v);
      }
    }
    CanonicalUnique(rs, expected);
  }
}
