/** `json_string`, which quotes the font and atlas file names for the
    metrics file, and a string-body decoder after section 7 of RFC 8259 to
    judge its output by. */
module JsonText {
  import opened Optional

  /** The characters `json_string` puts a backslash in front of. */
  predicate Backslashed(c: char) {
    c == '"' || c == '\\' || c == '\U{8}' || c == '\U{C}' || c == '\n' || c == '\r' || c == '\t'
  }

  /** A control character, U+0000 to U+001F. */
  predicate Control(c: char) {
    c as int < 0x20
  }

  /** How many characters of `s` get a backslash. */
  function Specials(s: string): nat {
    if s == [] then 0 else (if Backslashed(s[0]) then 1 else 0) + Specials(s[1..])
  }

  /** What `json_string` emits for one character. */
  function EscapeChar(c: char): string {
    if Backslashed(c) then ['\\', c] else [c]
  }

  /** The body `json_string` emits for `s`, between the quotes: one backslash
      per special character, and nothing else added. */
  function Escape(s: string): (t: string)
    ensures |t| == |s| + Specials(s)
  {
    if s == [] then [] else EscapeChar(s[0]) + Escape(s[1..])
  }

  lemma {:induction false} EscapeConcat(a: string, b: string)
    ensures Escape(a + b) == Escape(a) + Escape(b)
    decreases |a|
  {
    if a != [] {
      assert (a + b)[1..] == a[1..] + b;
      EscapeConcat(a[1..], b);
    } else {
      assert a + b == b;
    }
  }

  /** Escaping one more character of `s` appends that character's escape. */
  lemma EscapePrefixStep(s: string, i: int)
    requires 0 <= i < |s|
    ensures Escape(s[..i + 1]) == Escape(s[..i]) + EscapeChar(s[i])
  {
    assert s[..i + 1] == s[..i] + [s[i]];
    EscapeConcat(s[..i], [s[i]]);
    assert Escape([s[i]]) == EscapeChar(s[i]) + Escape([]);
  }

  /** `json_string`: the quoted, escaped form of `s`, built character by character. */
  method JsonString(s: string) returns (d: string)
    ensures d == "\"" + Escape(s) + "\""
    ensures |d| == |s| + Specials(s) + 2
  {
    d := "\"";
    for i := 0 to |s|
      invariant d == "\"" + Escape(s[..i])
    {
      var c := s[i];
      if Backslashed(c) {
        d := d + ['\\'];
        d := d + [c];
      } else {
        d := d + [c];
      }
      EscapePrefixStep(s, i);
    }
    assert s[..|s|] == s;
    d := d + ['"'];
  }

  /** Reading back `json_string`'s own convention: a backslash stands for the
      character after it. */
  function Unescape(t: string): string
    decreases |t|
  {
    if t == [] then []
    else if t[0] == '\\' && |t| >= 2 then [t[1]] + Unescape(t[2..])
    else [t[0]] + Unescape(t[1..])
  }

  /** No two names share a quoted form: `Unescape` recovers the original. */
  lemma {:induction false} UnescapeEscape(s: string)
    ensures Unescape(Escape(s)) == s
  {
    if s != [] {
      UnescapeEscape(s[1..]);
      var t := Escape(s);
      if Backslashed(s[0]) {
        assert t[2..] == Escape(s[1..]);
      } else {
        assert t[1..] == Escape(s[1..]);
      }
    }
  }

  // ---------------------------------------------------------------------
  // Strings as section 7 of RFC 8259 defines them.

  /** A character allowed in a string without an escape. */
  predicate Plain(c: char) {
    !Control(c) && c != '"' && c != '\\'
  }

  /** The two-character escapes `\"`, `\\`, `\/`, `\b`, `\f`, `\n`, `\r`, `\t`. */
  function ShortEscape(c: char): Option<char> {
    if c == '"' then Some('"')
    else if c == '\\' then Some('\\')
    else if c == '/' then Some('/')
    else if c == 'b' then Some('\U{8}')
    else if c == 'f' then Some('\U{C}')
    else if c == 'n' then Some('\n')
    else if c == 'r' then Some('\r')
    else if c == 't' then Some('\t')
    else None
  }

  predicate IsHex(c: char) {
    '0' <= c <= '9' || 'a' <= c <= 'f' || 'A' <= c <= 'F'
  }

  function HexValue(c: char): (n: nat)
    requires IsHex(c)
    ensures n < 16
  {
    if '0' <= c <= '9' then c as int - '0' as int
    else if 'a' <= c <= 'f' then c as int - 'a' as int + 10
    else c as int - 'A' as int + 10
  }

  function Prepend(c: char, r: Option<string>): Option<string> {
    if r.None? then None else Some([c] + r.value)
  }

  /** The decoded value of a string body, or `None` when the body breaks the
      grammar: a raw control character, a lone backslash, an unknown escape,
      or a `\u` escape that is not four hex digits naming a non-surrogate. */
  function Decode(t: string): Option<string>
    decreases |t|
  {
    if t == [] then Some([])
    else if Plain(t[0]) then Prepend(t[0], Decode(t[1..]))
    else if t[0] != '\\' || |t| < 2 then None
    else if t[1] == 'u' then
      if |t| < 6 || !IsHex(t[2]) || !IsHex(t[3]) || !IsHex(t[4]) || !IsHex(t[5]) then None
      else
        var v := ((HexValue(t[2]) * 16 + HexValue(t[3])) * 16 + HexValue(t[4])) * 16 + HexValue(t[5]);
        if 0xD800 <= v < 0xE000 then None else Prepend(v as char, Decode(t[6..]))
    else match ShortEscape(t[1])
      case None => None
      case Some(c) => Prepend(c, Decode(t[2..]))
  }

  predicate NoControls(s: string) {
    forall i :: 0 <= i < |s| ==> !Control(s[i])
  }

  /** `json_string`'s output is a valid string exactly when the input holds
      no control character; a valid one decodes to the input. A tab, a
      newline or any other control character leaves a raw control character
      (after a backslash or alone) that section 7 of RFC 8259 forbids. */
  lemma {:induction false} EscapeValidIff(s: string)
    ensures Decode(Escape(s)) == if NoControls(s) then Some(s) else None
  {
    if s != [] {
      EscapeValidIff(s[1..]);
      var t := Escape(s);
      var c := s[0];
      if Backslashed(c) {
        assert t[0] == '\\' && t[1] == c && t[2..] == Escape(s[1..]);
        if Control(c) {
          assert ShortEscape(c) == None;
          assert Decode(t) == None;
        } else {
          assert ShortEscape(c) == Some(c);
          assert Decode(t) == Prepend(c, Decode(t[2..]));
        }
      } else {
        assert t[0] == c && t[1..] == Escape(s[1..]);
      }
      assert [c] + s[1..] == s;
      NoControlsFirst(s);
    }
  }

  lemma NoControlsFirst(s: string)
    requires s != []
    ensures NoControls(s) <==> !Control(s[0]) && NoControls(s[1..])
  {
    if !Control(s[0]) && NoControls(s[1..]) {
      forall i | 0 <= i < |s| ensures !Control(s[i]) {
        if i > 0 {
          assert s[i] == s[1..][i - 1];
        }
      }
    }
  }

  /** A font file name with a newline in it is quoted into an invalid string. */
  lemma NewlineNotEscaped()
    ensures Escape("a\nb") == "a\\\nb"
    ensures Decode(Escape("a\nb")) == None
  {
    EscapeValidIff("a\nb");
    assert Control("a\nb"[1]);
  }

  const HexDigits: string := "0123456789abcdef"

  /** One character escaped as section 7 of RFC 8259 requires: the short
      escapes where they exist, `\u00XX` for the other control characters. */
  function EscapeRfcChar(c: char): (t: string)
    ensures forall i :: 0 <= i < |t| ==> !Control(t[i])
  {
    if c == '"' then "\\\""
    else if c == '\\' then "\\\\"
    else if c == '\U{8}' then "\\b"
    else if c == '\U{C}' then "\\f"
    else if c == '\n' then "\\n"
    else if c == '\r' then "\\r"
    else if c == '\t' then "\\t"
    else if Control(c) then "\\u00" + [HexDigits[c as int / 16], HexDigits[c as int % 16]]
    else [c]
  }

  /** The corrected `json_string` body: no control character survives. */
  function EscapeRfc(s: string): (t: string)
    ensures NoControls(t)
  {
    if s == [] then [] else EscapeRfcChar(s[0]) + EscapeRfc(s[1..])
  }

  lemma DecodeEscapeRfcChar(c: char, rest: string)
    ensures Decode(EscapeRfcChar(c) + rest) == Prepend(c, Decode(rest))
  {
    if c == '"' || c == '\\' || c == '\U{8}' || c == '\U{C}' || c == '\n' || c == '\r' || c == '\t' {
      DecodeShortEscape(c, rest);
    } else if Control(c) {
      DecodeUnicodeEscape(c, rest);
    } else {
      var t := EscapeRfcChar(c) + rest;
      assert t[1..] == rest;
    }
  }

  lemma DecodeShortEscape(c: char, rest: string)
    requires c == '"' || c == '\\' || c == '\U{8}' || c == '\U{C}' || c == '\n' || c == '\r' || c == '\t'
    ensures Decode(EscapeRfcChar(c) + rest) == Prepend(c, Decode(rest))
  {
    var t := EscapeRfcChar(c) + rest;
    assert t[0] == '\\' && ShortEscape(t[1]) == Some(c);
    assert t[2..] == rest;
  }

  lemma DecodeUnicodeEscape(c: char, rest: string)
    requires Control(c) && !(c == '\U{8}' || c == '\U{C}' || c == '\n' || c == '\r' || c == '\t')
    ensures Decode(EscapeRfcChar(c) + rest) == Prepend(c, Decode(rest))
  {
    var hi, lo := c as int / 16, c as int % 16;
    HexDigitValue(hi);
    HexDigitValue(lo);
    var t := EscapeRfcChar(c) + rest;
    assert t[..6] == "\\u00" + [HexDigits[hi], HexDigits[lo]];
    assert t[0] == '\\' && t[1] == 'u' && t[2] == '0' && t[3] == '0' && t[4] == HexDigits[hi] && t[5] == HexDigits[lo];
    assert t[6..] == rest;
  }

  /** The digit `HexDigits[n]` reads back as `n`. */
  lemma HexDigitValue(n: int)
    requires 0 <= n < 16
    ensures IsHex(HexDigits[n]) && HexValue(HexDigits[n]) == n
  {}

  /** The corrected body always decodes, and to the original string. */
  lemma {:induction false} DecodeEscapeRfc(s: string)
    ensures Decode(EscapeRfc(s)) == Some(s)
  {
    if s != [] {
      DecodeEscapeRfc(s[1..]);
      DecodeEscapeRfcChar(s[0], EscapeRfc(s[1..]));
      assert [s[0]] + s[1..] == s;
    }
  }
}
