/**
 * The validator that the two text prompts of pr-splitter use for a branch
 * name or commit hash: it answers with an error message, or with nothing when
 * the value is accepted.
 */
module RefValidation {
  import opened Wrappers

  const EMPTY_REF_MESSAGE := "Please enter a branch name/ commit hash"
  const INVALID_REF_MESSAGE := "Please enter a valid branch name/ commit hash"

  /** `\w` of a JavaScript regular expression without the `u` flag. */
  predicate IsWordChar(c: char)
  {
    ('A' <= c <= 'Z') || ('a' <= c <= 'z') || ('0' <= c <= '9') || c == '_'
  }

  /** One character of the bracket class `[\w./-]`. */
  predicate InRefClass(c: char)
  {
    IsWordChar(c) || c == '.' || c == '/' || c == '-'
  }

  /**
   * The anchored pattern `^[\w./-]+$`: one character of the class, followed
   * either by the end of the input or by another match of the pattern.
   */
  predicate MatchesRefPattern(s: string)
    decreases |s|
  {
    |s| >= 1 && InRefClass(s[0]) && (|s| == 1 || MatchesRefPattern(s[1..]))
  }

  /** The pattern matches exactly the non-empty strings made of class characters. */
  lemma {:induction false} MatchesRefPatternIff(s: string)
    ensures MatchesRefPattern(s) <==> s != [] && forall i :: 0 <= i < |s| ==> InRefClass(s[i])
    decreases |s|
  {
    if |s| > 1 {
      MatchesRefPatternIff(s[1..]);
      assert forall i :: 1 <= i < |s| ==> s[i] == s[1..][i - 1];
    }
  }

  /**
   * `validateBranchNameOrCommitHash`: `None` stands for the `undefined` the
   * validator returns when it accepts the value.
   */
  function Validate(value: string): (r: Option<string>)
    ensures value == [] ==> r == Some(EMPTY_REF_MESSAGE)
    ensures r == None <==> value != [] && forall i :: 0 <= i < |value| ==> InRefClass(value[i])
    ensures value != [] && (exists i :: 0 <= i < |value| && !InRefClass(value[i])) ==> r == Some(INVALID_REF_MESSAGE)
  {
    MatchesRefPatternIff(value);
    if value == [] then Some(EMPTY_REF_MESSAGE)
    else if !MatchesRefPattern(value) then Some(INVALID_REF_MESSAGE)
    else None
  }
}
