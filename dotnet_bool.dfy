/**
 * `bool.TryParse` as .NET implements it: the literals "true" and "false" in any
 * ASCII letter case are recognised first; failing that, white space and NUL
 * characters are trimmed from both ends and the literals are tried once more.
 */
module DotNetBool {
  import opened Wrappers
  import opened Text

  /** The characters `TryParse` trims: `char.IsWhiteSpace` and U+0000. */
  predicate IsWhiteSpaceOrNull(c: char) {
    IsWhiteSpace(c) || c == '\0'
  }

  /** `Trim` of white space and NULs: only those are cut, and only from the ends. */
  function TrimWhiteSpaceAndNull(s: string): (r: string)
    ensures TrimmedOf(s, r, IsWhiteSpaceOrNull)
    ensures r != [] ==> !IsWhiteSpaceOrNull(r[0]) && !IsWhiteSpaceOrNull(r[|r| - 1])
  {
    TrimBoth(s, IsWhiteSpaceOrNull)
  }

  predicate IsTrueStringIgnoreCase(s: string) {
    EqualsIgnoreCase(s, "true")
  }

  predicate IsFalseStringIgnoreCase(s: string) {
    EqualsIgnoreCase(s, "false")
  }

  /** The second attempt, taken only when trimming removed something. */
  function TryParseUncommon(value: string): Option<bool>
  {
    var trimmed := TrimWhiteSpaceAndNull(value);
    if |trimmed| != |value| then
      if IsTrueStringIgnoreCase(trimmed) then Some(true)
      else if IsFalseStringIgnoreCase(trimmed) then Some(false)
      else None
    else None
  }

  /**
   * `bool.TryParse(value, out result)`: `Some(result)` on success, `None` on
   * failure. Whatever the two-step order, the outcome depends only on the trimmed
   * input: it is `true` or `false` exactly when the trimmed input spells that
   * literal, ignoring case, and a failure otherwise.
   */
  function TryParse(value: string): (r: Option<bool>)
    ensures r == Some(true) <==> IsTrueStringIgnoreCase(TrimWhiteSpaceAndNull(value))
    ensures r == Some(false) <==> IsFalseStringIgnoreCase(TrimWhiteSpaceAndNull(value))
    ensures r == None <==>
      !IsTrueStringIgnoreCase(TrimWhiteSpaceAndNull(value)) && !IsFalseStringIgnoreCase(TrimWhiteSpaceAndNull(value))
  {
    var trimmed := TrimWhiteSpaceAndNull(value);
    if IsTrueStringIgnoreCase(value) then
      LiteralIsTrimmed(value, "true");
      Some(true)
    else if IsFalseStringIgnoreCase(value) then
      LiteralIsTrimmed(value, "false");
      Some(false)
    else
      UntrimmedIsUnchanged(value);
      TryParseUncommon(value)
  }

  /** A string that spells a literal (in any case) has nothing to trim. */
  lemma LiteralIsTrimmed(value: string, literal: string)
    requires literal == "true" || literal == "false"
    requires EqualsIgnoreCase(value, literal)
    ensures TrimWhiteSpaceAndNull(value) == value
  {
    assert |value| == |literal| > 0;
    assert ToLowerAscii(value[0]) == literal[0];
    assert ToLowerAscii(value[|value| - 1]) == literal[|literal| - 1];
    LetterIsNotTrimmed(value[0]);
    LetterIsNotTrimmed(value[|value| - 1]);
  }

  lemma LetterIsNotTrimmed(c: char)
    requires 'a' <= ToLowerAscii(c) <= 'z'
    ensures !IsWhiteSpaceOrNull(c)
  {
  }

  /** Trimming that removes nothing leaves the string as it was. */
  lemma UntrimmedIsUnchanged(value: string)
    ensures |TrimWhiteSpaceAndNull(value)| == |value| ==> TrimWhiteSpaceAndNull(value) == value
  {
    var t := TrimWhiteSpaceAndNull(value);
    var i :| OccursAt(value, t, i);
  }
}
