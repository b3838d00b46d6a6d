/**
 * The Python string operations the handlers rely on, restricted to ASCII:
 * `str.lower`, the substring test `q in s` (also SQL `LIKE '%q%'`),
 * `str.isdigit`, `int(text)` and `str(n)`.
 */
module Text {

  predicate IsUpper(c: char) {
    'A' <= c <= 'Z'
  }

  function LowerChar(c: char): (r: char)
    ensures !IsUpper(r)
    ensures !IsUpper(c) ==> r == c
    ensures IsUpper(c) ==> r as int == c as int + 32
  {
    if IsUpper(c) then (c as int + 32) as char else c
  }

  /** `s.lower()` for ASCII text: upper-case letters become lower-case, nothing else changes. */
  function Lower(s: string): (r: string)
    ensures |r| == |s|
    ensures forall i :: 0 <= i < |r| ==> !IsUpper(r[i])
    ensures forall i :: 0 <= i < |s| && !IsUpper(s[i]) ==> r[i] == s[i]
    ensures forall i :: 0 <= i < |s| && IsUpper(s[i]) ==> r[i] as int == s[i] as int + 32
  {
    seq(|s|, i requires 0 <= i < |s| => LowerChar(s[i]))
  }

  /** `q` occurs in `s` at index `i`. */
  ghost predicate OccursAt(s: string, q: string, i: int) {
    0 <= i && i + |q| <= |s| && s[i..i + |q|] == q
  }

  /** `q in s`, scanning `s` from the left as Python does. */
  function Contains(s: string, q: string): (r: bool)
    ensures r <==> exists i :: OccursAt(s, q, i)
    decreases |s|
  {
    if |q| <= |s| && s[..|q|] == q then
      assert OccursAt(s, q, 0);
      true
    else if |s| == 0 then
      assert forall i :: !OccursAt(s, q, i);
      false
    else
      var r := Contains(s[1..], q);
      assert r <==> exists i :: OccursAt(s, q, i) by {
        forall i | OccursAt(s[1..], q, i)
          ensures OccursAt(s, q, i + 1)
        {
          assert s[1..][i..i + |q|] == s[i + 1..i + 1 + |q|];
        }
        forall i | OccursAt(s, q, i)
          ensures 1 <= i && OccursAt(s[1..], q, i - 1)
        {
          assert s[1..][i - 1..i - 1 + |q|] == s[i..i + |q|];
        }
      }
      r
  }

  /** The empty query occurs in every text, so an empty search keeps every row. */
  lemma ContainsEmpty(s: string)
    ensures Contains(s, "")
  {
    assert OccursAt(s, "", 0);
  }

  predicate IsDigit(c: char) {
    '0' <= c <= '9'
  }

  /** `s.isdigit()` for ASCII text: non-empty and all decimal digits. */
  predicate IsDigits(s: string) {
    |s| > 0 && forall i :: 0 <= i < |s| ==> IsDigit(s[i])
  }

  /** `int(s)` for a string of decimal digits. */
  function DigitsValue(s: string): nat
    requires forall i :: 0 <= i < |s| ==> IsDigit(s[i])
  {
    if |s| == 0 then 0
    else
      assert IsDigit(s[|s| - 1]);
      10 * DigitsValue(s[..|s| - 1]) + (s[|s| - 1] as int - '0' as int)
  }

  /** `str(n)` for a non-negative integer: decimal digits, no leading zero. */
  function NatToText(n: nat): string
  {
    if n < 10 then ['0' + n as char]
    else NatToText(n / 10) + ['0' + (n % 10) as char]
  }

  /** `int(str(n)) == n`: the age shown in an edit form reads back as the stored age. */
  lemma {:induction false} NatToTextRoundTrip(n: nat)
    ensures IsDigits(NatToText(n))
    ensures DigitsValue(NatToText(n)) == n
  {
    var s := NatToText(n);
    if n >= 10 {
      NatToTextRoundTrip(n / 10);
      assert s[..|s| - 1] == NatToText(n / 10);
    }
  }
}
