/**
 * Field validation run by the form handlers before any write: required
 * fields, the all-digits age, and the email pattern `[^@]+@[^@]+\.[^@]+`
 * applied with `re.match` (anchored at the start only).
 */
module Validation {
  import opened Wrappers
  import opened Text

  /** No '@' among s[from..to]. */
  ghost predicate NoAtIn(s: string, from: int, to: int)
    requires 0 <= from <= to <= |s|
  {
    forall k :: from <= k < to ==> s[k] != '@'
  }

  /**
   * The regular expression matches the prefix s[..e]: s[..i] is one or more
   * non-'@' characters, s[i] is '@', s[i+1..j] one or more non-'@'
   * characters, s[j] is '.', and s[j+1..e] one or more non-'@' characters.
   */
  ghost predicate MatchesPrefix(s: string, i: int, j: int, e: int) {
    && 0 < i && i + 1 < j && j + 1 < e <= |s|
    && s[i] == '@' && s[j] == '.'
    && NoAtIn(s, 0, i) && NoAtIn(s, i + 1, j) && NoAtIn(s, j + 1, e)
  }

  /** `re.match(r"[^@]+@[^@]+\.[^@]+", s)` succeeds. */
  ghost predicate EmailRegexMatches(s: string) {
    exists i, j, e :: MatchesPrefix(s, i, j, e)
  }

  /** Index of the first `c` in s[from..], or |s| when there is none. */
  function IndexOf(s: string, c: char, from: nat): (r: nat)
    requires from <= |s|
    ensures from <= r <= |s|
    ensures r < |s| ==> s[r] == c
    ensures forall k :: from <= k < r ==> s[k] != c
    decreases |s| - from
  {
    if from == |s| || s[from] == c then from else IndexOf(s, c, from + 1)
  }

  /** Some '.' at an index in [from, to). */
  predicate HasDotIn(s: string, from: int, to: int)
    requires 0 <= from && to <= |s|
  {
    exists j :: from <= j < to && s[j] == '.'
  }

  /**
   * The email check as the matcher decides it: the first '@' is at i >= 1,
   * and with k the next '@' after it (or |s|), a '.' sits at some j with
   * i + 2 <= j <= k - 2. Anything may follow.
   */
  predicate ValidEmail(s: string) {
    var i := IndexOf(s, '@', 0);
    1 <= i < |s| && HasDotIn(s, i + 2, IndexOf(s, '@', i + 1) - 1)
  }

  /** The index-based check accepts exactly the strings the regular expression matches. */
  lemma ValidEmailMatchesRegex(s: string)
    ensures ValidEmail(s) <==> EmailRegexMatches(s)
  {
    var i := IndexOf(s, '@', 0);
    if ValidEmail(s) {
      var k := IndexOf(s, '@', i + 1);
      var j :| i + 2 <= j < k - 1 && s[j] == '.';
      assert MatchesPrefix(s, i, j, j + 2);
    }
    if EmailRegexMatches(s) {
      var i', j, e :| MatchesPrefix(s, i', j, e);
      assert i' == i;
      var k := IndexOf(s, '@', i + 1);
      assert k >= e;
      assert HasDotIn(s, i + 2, k - 1);
    }
  }

  /** Why a form is refused; each is shown to the user and nothing is written. */
  datatype FormError =
    | MissingField
    | BadAge
    | BadEmail
    | DuplicateId
    | StudentNotFound
    | CourseNotFound
    | InstructorNotFound
    | AlreadyRegistered

  /**
   * The checks shared by the add and edit forms for a person, in their
   * order: every field filled in, the age all digits, the email matching.
   */
  function PersonFormError(name: string, ageText: string, email: string): (r: Option<FormError>)
    ensures r == None <==> name != "" && IsDigits(ageText) && ValidEmail(email)
    ensures r == Some(MissingField) <==> name == "" || ageText == "" || email == ""
    ensures r == Some(BadAge) <==> name != "" && ageText != "" && email != "" && !IsDigits(ageText)
  {
    if name == "" || ageText == "" || email == "" then Some(MissingField)
    else if !IsDigits(ageText) then Some(BadAge)
    else if !ValidEmail(email) then Some(BadEmail)
    else None
  }
}
