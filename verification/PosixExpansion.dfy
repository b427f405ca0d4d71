/**
 * Where the operations agree with the POSIX.1-2017 Shell Command Language: defaults and strips of
 * section 2.6.2, with patterns of section 2.13 that have no bracket expressions and no quoting.
 */
module PosixExpansion {
  import opened Wrappers
  import opened GlobStrip
  import opened ParameterExpansion

  /** The default stands in for an unset parameter, with a colon also for a null one. */
  function PosixDefault(value: Option<string>, word: string, colon: bool): string {
    if value.None? || (colon && value.value == "") then word else value.value
  }

  /** The forms with a default agree unless a colon has it replace an empty value. */
  lemma DefaultAgreesIff(op: string, value: Option<string>)
    requires Fallback(op).Some?
    ensures ApplyOperation(op, value) == Some(PosixDefault(value, Fallback(op).value, ":" <= op))
      <==> !(":" <= op && value == Some("") && Fallback(op).value != "")
  {
  }

  ghost predicate AnEndMatches(value: string, pattern: string, isPrefix: bool) {
    exists k: nat :: k <= |value| && InLanguage(pattern, Span(value, isPrefix, k))
  }

  /** The value without its shortest or longest matching end, or as it is when no end matches. */
  ghost predicate IsPosixStrip(value: string, a: Anchored, result: string) {
    if AnEndMatches(value, a.pattern, a.isPrefix) then IsStrip(value, a.pattern, a.isPrefix, a.longest, Some(result))
    else result == value
  }

  /** The strips agree exactly when an end of the value matches. */
  lemma StripAgreesIff(op: string, value: string)
    requires ParseAnchored(op).Some? && '[' !in op && '\\' !in op
    ensures (exists result :: ApplyOperation(op, Some(value)) == Some(result)
              && IsPosixStrip(value, ParseAnchored(op).value, result))
      <==> AnEndMatches(value, ParseAnchored(op).value.pattern, ParseAnchored(op).value.isPrefix)
  {
    var a := ParseAnchored(op).value;
    assert ApplyOperation(op, Some(value)) == Strip(value, a.pattern, a.isPrefix, a.longest);
    hide ApplyOperation, ParseAnchored, Strip, InLanguage;
    StripIsStrip(value, a.pattern, a.isPrefix, a.longest);
    var stripped := Strip(value, a.pattern, a.isPrefix, a.longest);
    assert IsStrip(value, a.pattern, a.isPrefix, a.longest, stripped);
    if stripped.Some? {
      assert AnEndMatches(value, a.pattern, a.isPrefix);
      assert IsPosixStrip(value, a, stripped.value);
    }
  }
}
