/** `generateRangesFromUsed` of the C++ baker: walks the code points of a
    `std::set<int>` in ascending order and appends one `Range` per maximal
    run of consecutive values. */
module UsedRanges {
  import opened CodepointRanges

  /** The iteration order of a `std::set<int>`: ascending, no duplicates. */
  predicate StrictlyIncreasing(s: seq<int>) {
    forall j, k :: 0 <= j < k < |s| ==> s[j] < s[k]
  }

  /** The loop state after the first `i` code points: `runs` holds the closed
      runs, `lo..hi` the open one, which ends at the last code point read. */
  ghost predicate Coalescing(used: seq<int>, i: int, lo: int, hi: int, runs: seq<Range>) {
    && 0 < i <= |used|
    && lo <= hi == used[i - 1]
    && Canonical(runs)
    && (|runs| > 0 ==> runs[|runs| - 1].end + 1 < lo)
    && forall v :: Covers(runs, v) || lo <= v <= hi <==> v in used[..i]
  }

  /** The first code point, or one equal or adjacent to the open run's end, extends the run. */
  lemma ExtendRun(used: seq<int>, i: int, lo: int, hi: int, runs: seq<Range>)
    requires StrictlyIncreasing(used) && 0 <= i < |used|
    requires if i == 0 then lo == hi == used[0] && runs == [] else Coalescing(used, i, lo, hi, runs)
    requires used[i] == hi || used[i] == hi + 1
    ensures Coalescing(used, i + 1, lo, used[i], runs)
  {
    assert used[..i + 1] == used[..i] + [used[i]];
  }

  /** A code point past the open run's end closes the run and opens a new one. */
  lemma NewRun(used: seq<int>, i: int, lo: int, hi: int, runs: seq<Range>)
    requires StrictlyIncreasing(used) && 0 < i < |used|
    requires Coalescing(used, i, lo, hi, runs)
    requires used[i] != hi && used[i] != hi + 1
    ensures Coalescing(used, i + 1, used[i], used[i], runs + [Range(lo, hi)])
  {
    assert used[i - 1] < used[i];
    AppendRun(runs, lo, hi);
    assert used[..i + 1] == used[..i] + [used[i]];
  }

  /** Closing the open run after the last code point gives the runs of the whole set. */
  lemma CloseLastRun(used: seq<int>, lo: int, hi: int, runs: seq<Range>)
    requires Coalescing(used, |used|, lo, hi, runs)
    ensures Canonical(runs + [Range(lo, hi)])
    ensures forall v :: Covers(runs + [Range(lo, hi)], v) <==> v in used
  {
    AppendRun(runs, lo, hi);
    assert used[..|used|] == used;
  }

  /** Appends to `prior` the maximal runs of `used`; an empty set appends nothing.
      The appended ranges are ascending, non-adjacent and cover exactly `used`. */
  method GenerateRangesFromUsed(used: seq<int>, prior: seq<Range>) returns (ranges: seq<Range>)
    requires StrictlyIncreasing(used)
    ensures |ranges| >= |prior| && ranges[..|prior|] == prior
    ensures used == [] ==> ranges == prior
    ensures Canonical(ranges[|prior|..])
    ensures forall v :: Covers(ranges[|prior|..], v) <==> v in used
  {
    if |used| == 0 {
      return prior;
    }
    var lo := used[0];
    var hi := lo;
    var c := lo;
    var runs: seq<Range> := [];
    var i := 0;
    while i < |used|
      invariant 0 <= i <= |used|
      invariant if i == 0 then lo == hi == used[0] && runs == [] else Coalescing(used, i, lo, hi, runs) && c == hi
    {
      c := used[i];
      if c == hi || c == hi + 1 {
        ExtendRun(used, i, lo, hi, runs);
        hi := if c > hi then c else hi;
      } else {
        NewRun(used, i, lo, hi, runs);
        runs := runs + [Range(lo, hi)];
        lo := c;
        hi := c;
      }
      i := i + 1;
    }
    CloseLastRun(used, lo, c, runs);
    ranges := prior + runs + [Range(lo, c)];
    assert ranges[|prior|..] == runs + [Range(lo, c)];
  }
}
