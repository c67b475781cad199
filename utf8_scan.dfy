/** The byte-level UTF-8 scanner inside `addUsedCodepointsFromUTF8File`:
    it collects the code points of a text file, read as bytes (`bv8`), into a set. It is structural
    only: it checks lead and continuation bit patterns but accepts overlong
    forms, surrogates and values above U+10FFFF. */
module Utf8Scan {
  import opened Optional
  import opened ByteBits

  /** The lead-byte table, tried in this order: mask, expected bits, sequence length. */
  const Masks: seq<bv8> := [0xF8, 0xF0, 0xE0]
  const Matches: seq<bv8> := [0xF0, 0xE0, 0xC0]
  const Needs: seq<nat> := [4, 3, 2]

  /** A recognised lead byte: the length of its sequence and the payload bits it carries. */
  datatype Lead = Lead(need: nat, payload: int)

  /** The first table entry from `m` on whose mask matches `c`, with `c & ~mask` as payload. */
  function LeadFrom(c: bv8, m: nat): (r: Option<Lead>)
    requires m <= 3
    ensures r.Some? ==> 2 <= r.value.need <= 4
    decreases 3 - m
  {
    if m == 3 then None
    else if c & Masks[m] == Matches[m] then Some(Lead(Needs[m], (c & !Masks[m]) as int))
    else LeadFrom(c, m + 1)
  }

  /** `(c & 0xC0) == 0x80`. */
  predicate IsContinuation(c: bv8) {
    c & 0xC0 == 0x80
  }

  /** `c & 0x3F`. */
  function Low6(c: bv8): int {
    (c & 0x3F) as int
  }

  lemma Mask4(c: bv8)
    ensures (c & 0xF8 == 0xF0) <==> 0xF0 <= c < 0xF8
  {}

  lemma Mask3(c: bv8)
    ensures (c & 0xF0 == 0xE0) <==> 0xE0 <= c < 0xF0
  {}

  lemma Mask2(c: bv8)
    ensures (c & 0xE0 == 0xC0) <==> 0xC0 <= c < 0xE0
  {}

  lemma Payload4(c: bv8)
    ensures (c & !0xF8) as int == c as int % 8
  {}

  lemma Payload3(c: bv8)
    ensures (c & !0xF0) as int == c as int % 16
  {}

  lemma Payload2(c: bv8)
    ensures (c & !0xE0) as int == c as int % 32
  {}

  lemma ContinuationBits(c: bv8)
    ensures IsContinuation(c) <==> 0x80 <= c < 0xC0
    ensures Low6(c) == c as int % 64
  {}

  /** The lead table read as byte ranges: F0..F7 open four-byte sequences,
      E0..EF three-byte ones, C0..DF two-byte ones; nothing else is a lead. */
  lemma LeadRanges(c: bv8)
    ensures LeadFrom(c, 0) ==
      if 0xF0 <= c < 0xF8 then Some(Lead(4, c as int % 8))
      else if 0xE0 <= c < 0xF0 then Some(Lead(3, c as int % 16))
      else if 0xC0 <= c < 0xE0 then Some(Lead(2, c as int % 32))
      else None
  {
    Mask4(c); Mask3(c); Mask2(c);
    Payload4(c); Payload3(c); Payload2(c);
  }

  /** Shifts the low six bits of `data[j]`, ..., `data[need - 1]` into `v`,
      or fails at the first byte that is not a continuation byte. */
  function Continuation(data: seq<bv8>, j: nat, need: nat, v: int): Option<int>
    requires 1 <= j <= need <= |data|
    decreases need - j
  {
    if j == need then Some(v)
    else if !IsContinuation(data[j]) then None
    else Continuation(data, j + 1, need, v * 64 + Low6(data[j]))
  }

  /** Outcome of a scan: whether it completed, and the set as it stands
      (on failure, with everything inserted before the bad byte). */
  datatype ScanResult = ScanResult(ok: bool, used: set<int>)

  /** The scan of `data` from its first byte: control bytes below 32 are
      skipped, ASCII is inserted as is, a multi-byte sequence is decoded and
      the scan resumes right after it; a bad lead, a truncated sequence or a
      bad continuation byte stops the scan with failure. */
  function Scan(data: seq<bv8>, used: set<int>): ScanResult
    decreases |data|
  {
    if data == [] then ScanResult(true, used)
    else if data[0] < 32 then Scan(data[1..], used)
    else if data[0] < 128 then Scan(data[1..], used + {data[0] as int})
    else match LeadFrom(data[0], 0)
      case None => ScanResult(false, used)
      case Some(lead) =>
        if |data| < lead.need then ScanResult(false, used)
        else match Continuation(data, 1, lead.need, lead.payload)
          case None => ScanResult(false, used)
          case Some(v) => Scan(data[lead.need..], used + {v})
  }

  predicate HasBom(data: seq<bv8>) {
    |data| >= 3 && data[0] == 0xEF && data[1] == 0xBB && data[2] == 0xBF
  }

  /** The whole file: a leading byte-order mark is skipped, then the bytes are scanned. */
  function ScanFile(data: seq<bv8>, used: set<int>): ScanResult {
    Scan(if HasBom(data) then data[3..] else data, used)
  }

  /** One step of the table search. */
  lemma LeadStep(c: bv8, m: nat)
    requires m < 3
    ensures LeadFrom(c, m) == if c & Masks[m] == Matches[m] then Some(Lead(Needs[m], (c & !Masks[m]) as int)) else LeadFrom(c, m + 1)
  {
  }

  /** The search of the lead table for byte `c` (the `for m` loop). */
  method MatchLead(c: bv8) returns (found: bool, need: nat, v: int)
    ensures found <==> LeadFrom(c, 0).Some?
    ensures found ==> LeadFrom(c, 0) == Some(Lead(need, v))
  {
    found, need, v := false, 0, 0;
    var m := 0;
    while m < 3
      invariant 0 <= m <= 3
      invariant !found && LeadFrom(c, 0) == LeadFrom(c, m)
    {
      var mask := Masks[m];
      LeadStep(c, m);
      if c & mask == Matches[m] {
        found := true;
        need := Needs[m];
        v := (c & !mask) as int;
        break;
      }
      m := m + 1;
    }
  }

  /** The `for j` loop: reads the continuation bytes `data[i + 1]`, ...,
      `data[i + need - 1]` into `v`, stopping at the first bad one. */
  method ReadContinuation(data: seq<bv8>, i: nat, need: nat, v0: int) returns (ok: bool, v: int)
    requires 1 <= need && i + need <= |data|
    ensures Continuation(data[i..], 1, need, v0) == if ok then Some(v) else None
  {
    ghost var rest := data[i..];
    v := v0;
    var j := 1;
    while j < need
      invariant 1 <= j <= need
      invariant Continuation(rest, 1, need, v0) == Continuation(rest, j, need, v)
    {
      var d := data[i + j];
      assert rest[j] == d;
      if !IsContinuation(d) {
        return false, v;
      }
      v := v * 64 + Low6(d);
      j := j + 1;
    }
    ok := true;
  }

  /** A byte below 128 at `i` is skipped or inserted, and the scan goes on at `i + 1`. */
  lemma ScanOneByte(data: seq<bv8>, i: int, used: set<int>)
    requires 0 <= i < |data| && data[i] < 128
    ensures data[i] < 32 ==> Scan(data[i..], used) == Scan(data[i + 1..], used)
    ensures data[i] >= 32 ==> Scan(data[i..], used) == Scan(data[i + 1..], used + {data[i] as int})
  {
    assert data[i..][0] == data[i];
    assert data[i..][1..] == data[i + 1..];
  }

  /** A complete sequence at `i` inserts its value, and the scan goes on after it. */
  lemma ScanSequenceAt(data: seq<bv8>, i: int, used: set<int>, need: nat, payload: int, v: int)
    requires 0 <= i && 1 <= need && i + need <= |data| && data[i] >= 128
    requires LeadFrom(data[i], 0) == Some(Lead(need, payload))
    requires Continuation(data[i..], 1, need, payload) == Some(v)
    ensures Scan(data[i..], used) == Scan(data[i + need..], used + {v})
  {
    assert data[i..][0] == data[i];
    assert data[i..][need..] == data[i + need..];
  }

  /** The decode loop of `addUsedCodepointsFromUTF8File` over the file's
      bytes, inserting into `used`; returns false on malformed input. */
  method AddUsedCodepoints(data: seq<bv8>, used: set<int>) returns (ok: bool, result: set<int>)
    ensures ScanResult(ok, result) == ScanFile(data, used)
  {
    var start := 0;
    if |data| >= 3 && data[0] == 0xEF && data[1] == 0xBB && data[2] == 0xBF {
      start := 3;
    }
    result := used;
    var i := start;
    while i < |data|
      invariant start <= i <= |data|
      invariant Scan(data[i..], result) == ScanFile(data, used)
    {
      var decoded;
      decoded, i, result := DecodeOne(data, i, result);
      if !decoded {
        return false, result;
      }
    }
    ok := true;
  }

  /** One pass of the decode loop at byte `i`: a control byte is skipped, an
      ASCII byte inserted, a multi-byte sequence decoded and inserted; on a
      bad lead, a truncated sequence or a bad continuation byte it reports
      failure and leaves the set as it was. */
  method DecodeOne(data: seq<bv8>, i: nat, used: set<int>) returns (decoded: bool, next: nat, result: set<int>)
    requires i < |data|
    ensures decoded ==> i < next <= |data| && Scan(data[i..], used) == Scan(data[next..], result)
    ensures !decoded ==> result == used && Scan(data[i..], used) == ScanResult(false, used)
  {
    var c := data[i];
    assert data[i..][0] == c;
    result := used;
    if c < 32 {
      ScanOneByte(data, i, used);
    } else if c < 128 {
      ScanOneByte(data, i, used);
      result := result + {c as int};
    } else {
      var remain := |data| - i;
      var found, need, v := MatchLead(c);
      if !found {
        return false, i, result;
      }
      if remain < need {
        return false, i, result;
      }
      ghost var payload := v;
      var complete;
      complete, v := ReadContinuation(data, i, need, v);
      if !complete {
        return false, i, result;
      }
      ScanSequenceAt(data, i, used, need, payload, v);
      result := result + {v};
      return true, i + need, result;
    }
    return true, i + 1, result;
  }

  // ---------------------------------------------------------------------
  // The scanner against an independent reference: the UTF-8 encoder.

  /** UTF-8 encoding as in section 3 of RFC 3629, extended to the 21 bits a
      four-byte sequence can carry. */
  function Encode(v: int): (bytes: seq<bv8>)
    requires 0 <= v < 0x200000
    ensures 1 <= |bytes| <= 4
  {
    if v < 0x80 then [v as bv8]
    else if v < 0x800 then [(0xC0 + v / 64) as bv8, ContByte(v)]
    else if v < 0x10000 then [(0xE0 + v / 4096) as bv8, ContByte(v / 64), ContByte(v)]
    else [(0xF0 + v / 262144) as bv8, ContByte(v / 4096), ContByte(v / 64), ContByte(v)]
  }

  /** The continuation byte `10xxxxxx` carrying the low six bits of `x`. */
  function ContByte(x: nat): bv8 {
    (0x80 + x % 64) as bv8
  }

  predicate Encodable(cps: seq<int>) {
    forall k :: 0 <= k < |cps| ==> 0 <= cps[k] < 0x200000
  }

  function EncodeAll(cps: seq<int>): seq<bv8>
    requires Encodable(cps)
  {
    if cps == [] then [] else Encode(cps[0]) + EncodeAll(cps[1..])
  }

  /** The code points of `cps` the scanner keeps: everything from 32 up
      (smaller ones encode as the control bytes it skips). */
  function Kept(cps: seq<int>): set<int> {
    if cps == [] then {} else (if cps[0] >= 32 then {cps[0]} else {}) + Kept(cps[1..])
  }

  lemma ByteValue(x: int)
    requires 0 <= x < 256
    ensures (x as bv8) as int == x
    ensures (x as bv8) < 32 <==> x < 32
    ensures (x as bv8) < 128 <==> x < 128
  {
    ByteRoundTrip(x);
    BitsBelow(x as bv8);
  }

  lemma BitsBelow(b: bv8)
    ensures b < 32 <==> b as int < 32
    ensures b < 128 <==> b as int < 128
  {}

  lemma ContinuationOf(x: nat)
    ensures IsContinuation(ContByte(x)) && Low6(ContByte(x)) == x % 64
  {
    ByteValue(0x80 + x % 64);
    ContinuationBits(ContByte(x));
  }

  /** A lead byte given as a number: it is from 0x80 up, and the table
      reads its sequence length and the bits above the lead's prefix `lo`. */
  lemma LeadByte(x: int, need: nat, lo: int)
    requires || (need == 2 && lo == 0xC0 && 0xC0 <= x < 0xE0)
             || (need == 3 && lo == 0xE0 && 0xE0 <= x < 0xF0)
             || (need == 4 && lo == 0xF0 && 0xF0 <= x < 0xF8)
    ensures (x as bv8) >= 128 && LeadFrom(x as bv8, 0) == Some(Lead(need, x - lo))
  {
    ByteValue(x);
    LeadRanges(x as bv8);
  }

  /** Dividing by `Pow64(n)` is shifting right by `6 * n` bits. */
  lemma Pow64Shifts(v: nat)
    ensures v / Pow64(0) == v && v / Pow64(1) == v / 64
    ensures v / Pow64(2) == v / 4096 && v / Pow64(3) == v / 262144
  {
  }

  /** One multi-byte step of the scan: a lead byte and its continuation
      bytes insert the decoded value and the scan resumes after them. */
  lemma ScanSequence(e: seq<bv8>, used: set<int>, need: nat, payload: int, v: int)
    requires 1 <= need <= |e| && e[0] >= 128
    requires LeadFrom(e[0], 0) == Some(Lead(need, payload))
    requires Continuation(e, 1, need, payload) == Some(v)
    ensures Scan(e, used) == Scan(e[need..], used + {v})
  {
  }

  lemma ScanEncoded2(v: int, rest: seq<bv8>, used: set<int>)
    requires 0x80 <= v < 0x800
    ensures Scan(Encode(v) + rest, used) == Scan(rest, used + {v})
  {
    var e := Encode(v) + rest;
    var lead := 0xC0 + v / 64;
    LeadByte(lead, 2, 0xC0);
    ContinuationOf(v);
    assert e[1] == ContByte(v);
    assert e[2..] == rest;
    ScanSequence(e, used, 2, v / 64, v);
  }

  /** Six-bit groups of a code point: shifting right by 12 or 18 is
      shifting right by 6 two or three times. */
  lemma SixBitGroups(v: nat)
    ensures v / 4096 == v / 64 / 64
    ensures v / 262144 == v / 64 / 64 / 64
  {}

  /** The continuation bytes `e[j..need]` carry the low `6 * (need - j)` bits of `v`. */
  lemma ContinuationCarries(e: seq<bv8>, j: nat, need: nat, v: nat)
    requires 1 <= j <= need <= |e| && need - j <= 3
    requires forall q :: j <= q < need ==> e[q] == ContByte(v / Pow64(need - 1 - q))
    ensures Continuation(e, j, need, v / Pow64(need - j)) == Some(v)
    decreases need - j
  {
    if j < need {
      ContinuationOf(v / Pow64(need - 1 - j));
      ContinuationCarries(e, j + 1, need, v);
      ShiftInSix(v, need - j);
    }
  }

  /** Shifting the next six-bit group in: `v >> 6n` followed by the low six
      bits of `v >> 6(n - 1)` is `v >> 6(n - 1)`. */
  lemma ShiftInSix(v: nat, n: nat)
    requires 1 <= n <= 3
    ensures v / Pow64(n) * 64 + v / Pow64(n - 1) % 64 == v / Pow64(n - 1)
  {
    var w := v / Pow64(n - 1);
    assert v / Pow64(n) == w / 64 by { SixBitGroups(v); }
  }

  function Pow64(n: nat): nat {
    if n == 0 then 1 else if n == 1 then 64 else if n == 2 then 4096 else if n == 3 then 262144 else 16777216
  }

  lemma ScanEncoded3(v: int, rest: seq<bv8>, used: set<int>)
    requires 0x800 <= v < 0x10000
    ensures Scan(Encode(v) + rest, used) == Scan(rest, used + {v})
  {
    var e := Encode(v) + rest;
    var lead := 0xE0 + v / 4096;
    LeadByte(lead, 3, 0xE0);
    Pow64Shifts(v);
    assert e[1] == ContByte(v / Pow64(1));
    assert e[2] == ContByte(v / Pow64(0));
    ContinuationCarries(e, 1, 3, v);
    assert e[3..] == rest;
    ScanSequence(e, used, 3, v / 4096, v);
  }

  lemma ScanEncoded4(v: int, rest: seq<bv8>, used: set<int>)
    requires 0x10000 <= v < 0x200000
    ensures Scan(Encode(v) + rest, used) == Scan(rest, used + {v})
  {
    var e := Encode(v) + rest;
    var lead := 0xF0 + v / 262144;
    LeadByte(lead, 4, 0xF0);
    Pow64Shifts(v);
    assert e[1] == ContByte(v / Pow64(2));
    assert e[2] == ContByte(v / Pow64(1));
    assert e[3] == ContByte(v / Pow64(0));
    ContinuationCarries(e, 1, 4, v);
    assert e[4..] == rest;
    ScanSequence(e, used, 4, v / 262144, v);
  }

  /** Scanning one encoded code point consumes exactly its bytes and inserts
      it, unless it is below 32. */
  lemma ScanEncodedOne(v: int, rest: seq<bv8>, used: set<int>)
    requires 0 <= v < 0x200000
    ensures Scan(Encode(v) + rest, used) == Scan(rest, if v < 32 then used else used + {v})
  {
    if v < 0x80 {
      var e := Encode(v) + rest;
      ByteValue(v);
      assert e[0] == v as bv8 && e[1..] == rest;
    } else if v < 0x800 {
      ScanEncoded2(v, rest, used);
    } else if v < 0x10000 {
      ScanEncoded3(v, rest, used);
    } else {
      ScanEncoded4(v, rest, used);
    }
  }

  /** Scanning the encoding of a list of code points completes and inserts
      every one of them from 32 up, whatever the set held before. */
  lemma {:induction false} ScanEncodedAll(cps: seq<int>, used: set<int>)
    requires Encodable(cps)
    ensures Scan(EncodeAll(cps), used) == ScanResult(true, used + Kept(cps))
  {
    if cps != [] {
      ScanEncodedOne(cps[0], EncodeAll(cps[1..]), used);
      var next := if cps[0] < 32 then used else used + {cps[0]};
      ScanEncodedAll(cps[1..], next);
    }
  }

  /** The bytes of a three-byte sequence as numbers. */
  lemma ThreeByteValues(v: int)
    requires 0x800 <= v < 0x10000
    ensures Encode(v)[0] as int == 0xE0 + v / 4096
    ensures Encode(v)[1] as int == 0x80 + v / 64 % 64
    ensures Encode(v)[2] as int == 0x80 + v % 64
  {
    ByteValue(0xE0 + v / 4096);
    ByteValue(0x80 + v / 64 % 64);
    ByteValue(0x80 + v % 64);
  }

  /** The bytes of a four-byte sequence as numbers. */
  lemma FourByteValues(v: int)
    requires 0x10000 <= v < 0x200000
    ensures Encode(v)[0] as int == 0xF0 + v / 262144
    ensures Encode(v)[1] as int == 0x80 + v / 4096 % 64
    ensures Encode(v)[2] as int == 0x80 + v / 64 % 64
    ensures Encode(v)[3] as int == 0x80 + v % 64
  {
    ByteValue(0xF0 + v / 262144);
    ByteValue(0x80 + v / 4096 % 64);
    ByteValue(0x80 + v / 64 % 64);
    ByteValue(0x80 + v % 64);
  }

  /** The lead byte of every sequence other than a three-byte one differs from 0xEF. */
  lemma LeadNotEf(v: int)
    requires 0 <= v < 0x200000 && !(0x800 <= v < 0x10000)
    ensures Encode(v)[0] != 0xEF
  {
    if v < 0x80 {
      ByteValue(v);
    } else if v < 0x800 {
      ByteValue(0xC0 + v / 64);
    } else {
      ByteValue(0xF0 + v / 262144);
    }
  }

  lemma HasBomBytes(e: seq<bv8>)
    ensures HasBom(e) <==> |e| >= 3 && e[0] as int == 0xEF && e[1] as int == 0xBB && e[2] as int == 0xBF
  {}

  /** The three six-bit groups of U+FEFF are 15, 59 and 63. */
  lemma FeffGroups(v: int)
    requires 0x800 <= v < 0x10000
    ensures (v / 4096 == 15 && v / 64 % 64 == 59 && v % 64 == 63) <==> v == 0xFEFF
  {
    SixBitGroups(v);
    var q := v / 64;
    assert v == 64 * q + v % 64;
    assert q == 64 * (q / 64) + q % 64;
  }

  /** Encoded text opens with EF BB BF exactly when its first code point is U+FEFF. */
  lemma BomPrefix(v: int, rest: seq<bv8>)
    requires 0 <= v < 0x200000
    ensures HasBom(Encode(v) + rest) <==> v == 0xFEFF
  {
    var e := Encode(v) + rest;
    HasBomBytes(e);
    if 0x800 <= v < 0x10000 {
      ThreeByteValues(v);
      FeffGroups(v);
      assert e[0] == Encode(v)[0] && e[1] == Encode(v)[1] && e[2] == Encode(v)[2];
    } else {
      LeadNotEf(v);
      assert e[0] == Encode(v)[0];
    }
  }

  /** Only U+FEFF encodes to the byte-order mark EF BB BF. */
  lemma BomIsFeff(cps: seq<int>)
    requires Encodable(cps)
    ensures HasBom(EncodeAll(cps)) <==> cps != [] && cps[0] == 0xFEFF
  {
    if cps != [] {
      BomPrefix(cps[0], EncodeAll(cps[1..]));
    }
  }

  /** The file-level scan of encoded text: a leading U+FEFF is taken for a
      byte-order mark and dropped; everything else from 32 up is inserted. */
  lemma ScanFileEncoded(cps: seq<int>, used: set<int>)
    requires Encodable(cps)
    ensures ScanFile(EncodeAll(cps), used) ==
      ScanResult(true, used + Kept(if cps != [] && cps[0] == 0xFEFF then cps[1..] else cps))
  {
    BomIsFeff(cps);
    if cps != [] && cps[0] == 0xFEFF {
      assert EncodeAll(cps)[3..] == EncodeAll(cps[1..]);
      ScanEncodedAll(cps[1..], used);
    } else {
      ScanEncodedAll(cps, used);
    }
  }

  /** A byte from 0x80 up that opens no sequence (a stray continuation byte,
      or F8..FF) stops the scan with failure and inserts nothing. */
  lemma BadLeadRejected(data: seq<bv8>, used: set<int>)
    requires data != [] && (0x80 <= data[0] < 0xC0 || 0xF8 <= data[0])
    ensures Scan(data, used) == ScanResult(false, used)
  {
    LeadRanges(data[0]);
  }

  /** Any lead byte with fewer bytes left than its sequence needs (a lone
      `E3`, or `F0 90`) is rejected. */
  lemma TruncatedRejected(data: seq<bv8>, used: set<int>)
    requires data != [] && LeadFrom(data[0], 0).Some? && |data| < LeadFrom(data[0], 0).value.need
    ensures Scan(data, used) == ScanResult(false, used)
  {
    LeadRanges(data[0]);
  }

  /** The first byte of a multi-byte encoding is a lead byte announcing
      the length of the encoding. */
  lemma EncodedLead(v: int)
    requires 0x80 <= v < 0x200000
    ensures LeadFrom(Encode(v)[0], 0).Some? && LeadFrom(Encode(v)[0], 0).value.need == |Encode(v)|
  {
    if v < 0x800 {
      EncodedLeadOf(v, 0xC0 + v / 64, 2, 0xC0);
    } else if v < 0x10000 {
      EncodedLeadOf(v, 0xE0 + v / 4096, 3, 0xE0);
    } else {
      EncodedLeadOf(v, 0xF0 + v / 262144, 4, 0xF0);
    }
  }

  lemma EncodedLeadOf(v: int, x: int, need: nat, lo: int)
    requires || (need == 2 && lo == 0xC0 && 0xC0 <= x < 0xE0)
             || (need == 3 && lo == 0xE0 && 0xE0 <= x < 0xF0)
             || (need == 4 && lo == 0xF0 && 0xF0 <= x < 0xF8)
    requires 0x80 <= v < 0x200000 && Encode(v)[0] == x as bv8 && |Encode(v)| == need
    ensures LeadFrom(Encode(v)[0], 0).Some? && LeadFrom(Encode(v)[0], 0).value.need == |Encode(v)|
  {
    LeadByte(x, need, lo);
  }

  /** In particular, the encoding of any multi-byte code point with its last
      byte missing is rejected. */
  lemma EncodingCutShortRejected(v: int, used: set<int>)
    requires 0x80 <= v < 0x200000
    ensures Scan(Encode(v)[..|Encode(v)| - 1], used) == ScanResult(false, used)
  {
    var full := Encode(v);
    EncodedLead(v);
    var e := full[..|full| - 1];
    assert e[0] == full[0];
    TruncatedRejected(e, used);
  }

  /** The continuation loop fails at the first byte from `j0` on that is
      not `10xxxxxx`, whatever it has accumulated. */
  lemma {:induction false} ContinuationFailsAt(data: seq<bv8>, j0: nat, need: nat, v: int, j: nat)
    requires 1 <= j0 <= j < need <= |data|
    requires forall i :: j0 <= i < j ==> IsContinuation(data[i])
    requires !IsContinuation(data[j])
    ensures Continuation(data, j0, need, v) == None
    decreases j - j0
  {
    if j0 < j {
      ContinuationFailsAt(data, j0 + 1, need, v * 64 + Low6(data[j0]), j);
    }
  }

  /** A lead byte whose sequence has a byte at position `j` that is not
      `10xxxxxx`, after continuation bytes only (`C3 41`, `E3 81 41`,
      `F0 90 80 41`), is rejected. */
  lemma BadContinuationRejected(data: seq<bv8>, used: set<int>, j: nat)
    requires data != [] && LeadFrom(data[0], 0).Some? && LeadFrom(data[0], 0).value.need <= |data|
    requires 1 <= j < LeadFrom(data[0], 0).value.need
    requires forall i :: 1 <= i < j ==> IsContinuation(data[i])
    requires !IsContinuation(data[j])
    ensures Scan(data, used) == ScanResult(false, used)
  {
    var lead := LeadFrom(data[0], 0).value;
    LeadRanges(data[0]);
    ContinuationFailsAt(data, 1, lead.need, lead.payload, j);
  }

  /** Insertions are never undone: whatever the outcome, the set only grows. */
  lemma {:induction false} ScanOnlyInserts(data: seq<bv8>, used: set<int>)
    ensures used <= Scan(data, used).used
    decreases |data|
  {
    if data != [] {
      if data[0] < 32 {
        ScanOnlyInserts(data[1..], used);
      } else if data[0] < 128 {
        ScanOnlyInserts(data[1..], used + {data[0] as int});
      } else {
        match LeadFrom(data[0], 0)
        case None =>
        case Some(lead) =>
          if |data| >= lead.need {
            match Continuation(data, 1, lead.need, lead.payload)
            case None =>
            case Some(v) => ScanOnlyInserts(data[lead.need..], used + {v});
          }
      }
    }
  }

  /** What the scanner does not check: an overlong NUL (C0 80) is
      accepted, though section 3 of RFC 3629 forbids overlong forms. */
  lemma AcceptsOverlong()
    ensures Scan([0xC0, 0x80], {}) == ScanResult(true, {0})
  {
    var overlong: seq<bv8> := [0xC0, 0x80];
    LeadRanges(0xC0);
    ContinuationBits(0x80);
    assert Continuation(overlong, 1, 2, 0) == Some(0);
    assert overlong[2..] == [];
  }

  /** A surrogate (ED A0 80 = U+D800) is accepted, though section 3 of
      RFC 3629 forbids encoding surrogates. */
  lemma AcceptsSurrogate()
    ensures Scan([0xED, 0xA0, 0x80], {}) == ScanResult(true, {0xD800})
  {
    ScanEncodedOne(0xD800, [], {});
    EncodeSurrogate();
    assert Encode(0xD800) + [] == [0xED, 0xA0, 0x80];
  }

  lemma EncodeSurrogate()
    ensures Encode(0xD800) == [0xED, 0xA0, 0x80]
  {
    var v := 0xD800;
    assert v / 4096 == 13 && v / 64 % 64 == 32 && v % 64 == 0;
    ThreeByteValues(v);
    var e := Encode(v);
    assert |e| == 3;
    assert e[0] as int == 0xED && e[1] as int == 0xA0 && e[2] as int == 0x80;
  }

  /** A value above U+10FFFF (F4 90 80 80 = 0x110000) is accepted, though
      section 3 of RFC 3629 ends UTF-8 at U+10FFFF. */
  lemma AcceptsBeyondUnicode()
    ensures Scan([0xF4, 0x90, 0x80, 0x80], {}) == ScanResult(true, {0x110000})
  {
    ScanEncodedOne(0x110000, [], {});
    EncodeBeyondUnicode();
    assert Encode(0x110000) + [] == [0xF4, 0x90, 0x80, 0x80];
  }

  lemma EncodeBeyondUnicode()
    ensures Encode(0x110000) == [0xF4, 0x90, 0x80, 0x80]
  {
    var v := 0x110000;
    assert v / 262144 == 4 && v / 4096 % 64 == 16 && v / 64 % 64 == 0 && v % 64 == 0;
    FourByteValues(v);
    var e := Encode(v);
    assert |e| == 4;
    assert e[0] as int == 0xF4 && e[1] as int == 0x90 && e[2] as int == 0x80 && e[3] as int == 0x80;
  }
}

/** The conversion between byte values and the 8-bit vectors the scanner reads. */
module ByteBits {
  /** The byte with value `x`, assembled bit by bit from the most significant end. */
  function BitsOf(x: int): (b: bv8)
    requires 0 <= x < 256
    ensures b as int == x
    decreases x
  {
    if x == 0 then 0
    else
      var high := BitsOf(x / 2);
      ShiftLeftDoubles(high);
      if x % 2 == 1 then (high << 1) | 1 else high << 1
  }

  lemma ShiftLeftDoubles(h: bv8)
    requires h < 128
    ensures (h << 1) as int == 2 * (h as int)
    ensures ((h << 1) | 1) as int == 2 * (h as int) + 1
  {}

  lemma VectorRoundTrip(b: bv8)
    ensures (b as int) as bv8 == b
  {}

  /** A value of a byte survives the trip through `bv8`. */
  lemma ByteRoundTrip(x: int)
    requires 0 <= x < 256
    ensures (x as bv8) as int == x
  {
    VectorRoundTrip(BitsOf(x));
  }
}
