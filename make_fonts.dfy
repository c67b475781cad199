/** The helpers of the make-fonts script that turn one font description
    into the command line of the gen-font script. */
module MakeFonts {
  import opened Optional

  predicate IsUpper(c: char) {
    'A' <= c <= 'Z'
  }

  /** `toLowerCase` on an ASCII capital. */
  function Lower(c: char): (l: char)
    requires IsUpper(c)
    ensures 'a' <= l <= 'z'
  {
    (c as int + 32) as char
  }

  /** `toUpperCase` on an ASCII small letter. */
  function Upper(c: char): (u: char)
    requires 'a' <= c <= 'z'
    ensures IsUpper(u)
  {
    (c as int - 32) as char
  }

  function CountUpper(s: string): (n: nat)
    ensures n <= |s|
  {
    if s == [] then 0 else (if IsUpper(s[0]) then 1 else 0) + CountUpper(s[1..])
  }

  predicate NoUpper(s: string) {
    forall i :: 0 <= i < |s| ==> !IsUpper(s[i])
  }

  /** `camelCaseToDash`: `str.replace(/[A-Z]/g, r => '-' + r.toLowerCase())`. */
  function CamelCaseToDash(s: string): (t: string)
    ensures NoUpper(t)
    ensures |t| == |s| + CountUpper(s)
  {
    if s == [] then []
    else if IsUpper(s[0]) then ['-', Lower(s[0])] + CamelCaseToDash(s[1..])
    else [s[0]] + CamelCaseToDash(s[1..])
  }

  /** A name without capitals comes back unchanged. */
  lemma {:induction false} NoUpperUnchanged(s: string)
    requires NoUpper(s)
    ensures CamelCaseToDash(s) == s
  {
    if s != [] {
      NoUpperUnchanged(s[1..]);
    }
  }

  /** The reading of a dashed option name back into camel case: a dash
      followed by a small letter becomes that letter's capital. */
  function DashToCamel(t: string): string {
    if |t| >= 2 && t[0] == '-' && 'a' <= t[1] <= 'z' then [Upper(t[1])] + DashToCamel(t[2..])
    else if t == [] then []
    else [t[0]] + DashToCamel(t[1..])
  }

  /** Without dashes in the key, dashing loses nothing: reading the dashed
      name back gives the key. */
  lemma {:induction false} DashRoundTrip(s: string)
    requires forall i :: 0 <= i < |s| ==> s[i] != '-'
    ensures DashToCamel(CamelCaseToDash(s)) == s
  {
    if s != [] {
      DashRoundTrip(s[1..]);
      var rest := CamelCaseToDash(s[1..]);
      if IsUpper(s[0]) {
        assert Upper(Lower(s[0])) == s[0];
        assert (['-', Lower(s[0])] + rest)[2..] == rest;
      } else {
        assert ([s[0]] + rest)[1..] == rest;
      }
    }
  }

  /** One `--dash-key=value` argument. */
  function OptionArg(key: string, value: string): string {
    "--" + CamelCaseToDash(key) + "=" + value
  }

  /** `genFont`'s argument list: the gen-font script, the project path, then
      one `--dash-key=value` per entry of the font description, in order. */
  method GenFontArgs(scriptPath: string, projectPath: string, entries: seq<(string, string)>)
    returns (args: seq<string>)
    ensures |args| == 2 + |entries|
    ensures args[0] == scriptPath && args[1] == "--project-path=" + projectPath
    ensures forall k :: 0 <= k < |entries| ==> args[2 + k] == OptionArg(entries[k].0, entries[k].1)
  {
    args := [scriptPath, "--project-path=" + projectPath];
    for k := 0 to |entries|
      invariant |args| == 2 + k
      invariant args[0] == scriptPath && args[1] == "--project-path=" + projectPath
      invariant forall j :: 0 <= j < k ==> args[2 + j] == OptionArg(entries[j].0, entries[j].1)
    {
      var (key, value) := entries[k];
      args := args + ["--" + CamelCaseToDash(key) + "=" + value];
    }
  }

  /** Index of the first `=` in `s`, if any. */
  function FirstEquals(s: string): (r: Option<nat>)
    ensures r.Some? ==> r.value < |s| && s[r.value] == '=' && forall i :: 0 <= i < r.value ==> s[i] != '='
    ensures r.None? ==> forall i :: 0 <= i < |s| ==> s[i] != '='
  {
    if s == [] then None
    else if s[0] == '=' then Some(0)
    else match FirstEquals(s[1..])
      case None => None
      case Some(i) => Some(i + 1)
  }

  /** How an option parser reads `--name=value`: the name up to the first
      `=`, turned back into camel case, and the rest as the value. */
  function ParseArg(arg: string): Option<(string, string)> {
    if |arg| < 2 || arg[..2] != "--" then None
    else match FirstEquals(arg[2..])
      case None => None
      case Some(i) => Some((DashToCamel(arg[2..][..i]), arg[2..][i + 1..]))
  }

  /** Every argument built from an entry whose key has no `-` or `=` reads
      back as that entry. */
  lemma ArgRoundTrip(key: string, value: string)
    requires forall i :: 0 <= i < |key| ==> key[i] != '-' && key[i] != '='
    ensures ParseArg(OptionArg(key, value)) == Some((key, value))
  {
    var dashed := CamelCaseToDash(key);
    DashedHasNoEquals(key);
    var arg := OptionArg(key, value);
    assert arg[..2] == "--";
    assert arg[2..] == dashed + "=" + value;
    assert FirstEquals(arg[2..]) == Some(|dashed|) by {
      assert (dashed + "=" + value)[|dashed|] == '=';
    }
    assert arg[2..][..|dashed|] == dashed;
    assert arg[2..][|dashed| + 1..] == value;
    DashRoundTrip(key);
  }

  lemma {:induction false} DashedHasNoEquals(s: string)
    requires forall i :: 0 <= i < |s| ==> s[i] != '='
    ensures forall i :: 0 <= i < |CamelCaseToDash(s)| ==> CamelCaseToDash(s)[i] != '='
  {
    if s != [] {
      DashedHasNoEquals(s[1..]);
    }
  }
}
