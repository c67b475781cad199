/** The option-text helpers of the baker's command line: `parse_bool`,
    `underscore_to_dash`, and the `ARG_PARSE_BOOL` test that matches a
    boolean option by its dashed name. */
module OptionText {
  import opened Optional

  /** The word `parse_bool` accepts for each truth value. */
  function BoolText(b: bool): string {
    if b then "true" else "false"
  }

  /** `parse_bool`: the exact words "true" and "false", nothing else. */
  function ParseBool(arg: string): (r: Option<bool>)
    ensures r.Some? <==> arg == "true" || arg == "false"
  {
    if arg == "true" then Some(true)
    else if arg == "false" then Some(false)
    else None
  }

  /** `ParseBool` inverts `BoolText`: an argument parses to `b` exactly when
      it is the word for `b` (so "TRUE", "1" or "truex" are refused). */
  lemma ParseBoolInverse(arg: string, b: bool)
    ensures ParseBool(arg) == Some(b) <==> arg == BoolText(b)
  {
  }

  /** `underscore_to_dash`: every '_' becomes '-', everything else is kept in place. */
  function UnderscoreToDash(s: string): (t: string)
    ensures |t| == |s| && '_' !in t
    ensures forall i :: 0 <= i < |s| && s[i] != '_' ==> t[i] == s[i]
    ensures forall i :: 0 <= i < |s| && s[i] == '_' ==> t[i] == '-'
  {
    if s == [] then []
    else [if s[0] == '_' then '-' else s[0]] + UnderscoreToDash(s[1..])
  }

  /** Replacing underscores twice changes nothing more than replacing them once. */
  lemma UnderscoreToDashIdempotent(s: string)
    ensures UnderscoreToDash(UnderscoreToDash(s)) == UnderscoreToDash(s)
  {
    var t := UnderscoreToDash(s);
    assert forall i :: 0 <= i < |t| ==> UnderscoreToDash(t)[i] == t[i];
  }

  /** The command-line spelling of the boolean field `field`. */
  function BoolFlag(field: string): string {
    UnderscoreToDash("--" + field)
  }

  /** `flag` is `--` followed by `field` with each '_' replaced by '-'. */
  predicate SpelledAs(field: string, flag: string) {
    && |flag| == |field| + 2 && flag[0] == '-' && flag[1] == '-'
    && forall i :: 0 <= i < |field| ==> flag[i + 2] == if field[i] == '_' then '-' else field[i]
  }

  lemma BoolFlagSpelling(field: string, flag: string)
    requires SpelledAs(field, flag)
    ensures BoolFlag(field) == flag
  {
    var t := BoolFlag(field);
    var s := "--" + field;
    forall i | 0 <= i < |flag|
      ensures t[i] == flag[i]
    {
      if i >= 2 {
        assert s[i] == field[i - 2];
      }
    }
  }

  /** The five boolean options and the only spellings that set them. */
  lemma BoolFlagNames()
    ensures BoolFlag("verbose") == "--verbose"
    ensures BoolFlag("show_grid") == "--show-grid"
    ensures BoolFlag("light") == "--light"
    ensures BoolFlag("ignore_errors") == "--ignore-errors"
    ensures BoolFlag("error_on_crop") == "--error-on-crop"
  {
    BoolFlagSpelling("verbose", "--verbose");
    BoolFlagSpelling("show_grid", "--show-grid");
    BoolFlagSpelling("light", "--light");
    BoolFlagSpelling("ignore_errors", "--ignore-errors");
    BoolFlagSpelling("error_on_crop", "--error-on-crop");
  }

  /** What one `ARG_PARSE_BOOL(field)` test makes of an option and its value. */
  datatype FlagOutcome = NotThisFlag | BadValue | Set(value: bool)

  /** `ARG_PARSE_BOOL`: the option must be the dashed flag name; its value
      must then be "true" or "false", or the command line is refused. */
  function ParseBoolFlag(option: string, field: string, value: string): (r: FlagOutcome)
    ensures r != NotThisFlag <==> option == BoolFlag(field)
    ensures r.Set? <==> option == BoolFlag(field) && ParseBool(value).Some?
    ensures r.Set? ==> value == BoolText(r.value)
  {
    if option != BoolFlag(field) then NotThisFlag
    else match ParseBool(value)
      case None => BadValue
      case Some(b) => Set(b)
  }

  /** An option spelled with an underscore never sets a boolean field. */
  lemma UnderscoreSpellingRefused(option: string, field: string, value: string)
    requires '_' in option
    ensures ParseBoolFlag(option, field, value) == NotThisFlag
  {
  }
}
