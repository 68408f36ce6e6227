/** matchTel: whether a string ends in decimal digits, the question the
    regular expression `\d+$` answers. */
module Helpers {

  /** `\d` in RE2 syntax: an ASCII decimal digit only. */
  predicate IsDigit(ch: char)
  {
    '0' <= ch <= '9'
  }

  predicate AllDigits(t: string)
  {
    forall j :: 0 <= j < |t| ==> IsDigit(t[j])
  }

  /** What `\d+$` finds a match in: a non-empty run of digits that reaches the
      end of the text (`$` without the multi-line flag is the end of text). */
  ghost predicate HasTrailingDigitRun(s: string)
  {
    exists k :: 0 <= k < |s| && AllDigits(s[k..])
  }

  /** A string ends in a digit run exactly when its last character is a digit. */
  lemma LastDigitIsTrailingRun(s: string)
    ensures (|s| > 0 && IsDigit(s[|s| - 1])) <==> HasTrailingDigitRun(s)
  {
    if |s| > 0 && IsDigit(s[|s| - 1]) {
      assert AllDigits(s[|s| - 1..]);
    }
    if HasTrailingDigitRun(s) {
      var k :| 0 <= k < |s| && AllDigits(s[k..]);
      assert s[k..][|s| - 1 - k] == s[|s| - 1];
    }
  }

  /** matchTel: decides the pattern by looking at the last character only. */
  predicate MatchTel(s: string): (r: bool)
    ensures r <==> HasTrailingDigitRun(s)
  {
    LastDigitIsTrailingRun(s);
    |s| > 0 && IsDigit(s[|s| - 1])
  }
}
