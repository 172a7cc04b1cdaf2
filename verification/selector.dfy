/** The egress destination selector the policy reconcilers act on
    (internal/controller/networkpolicy_controller.go): the anchored pattern
    `^DNS_RESOLVER\s==\s'(?P<domain>.*)'$` written out by hand.

    In Go's regular expressions `\s` is one of tab, newline, form feed,
    carriage return and space, `.` is any character but newline, and without
    the multi-line flag `^` and `$` anchor at the ends of the whole text.
    The greedy `.*` runs to the last character, which must be a quote, so
    the captured domain may itself contain quotes. */
module Selector {

  import opened Wrappers
  import NetworkSets

  /** `\s` in Go's regular-expression syntax. */
  predicate IsSpace(c: char) {
    c == '\t' || c == '\n' || c == '\U{000C}' || c == '\r' || c == ' '
  }

  /** The selector text for `domain`, with the two separators given. */
  function SelectorText(w1: char, w2: char, domain: string): string {
    NetworkSets.SelectorName + [w1] + "==" + [w2] + "'" + domain + "'"
  }

  /** The text before the captured domain: keyword, separator, `==`,
      separator and the opening quote. */
  const HeadLength: nat := 17

  /** The pattern, as a relation: `s` is selector text whose capture is `d`. */
  ghost predicate Matches(s: string, d: string) {
    '\n' !in d && exists w1, w2 | IsSpace(w1) && IsSpace(w2) :: s == SelectorText(w1, w2, d)
  }

  /** `destinationSelector.FindStringSubmatch(s)[1]` when there is a match. */
  function ExtractDomain(s: string): (r: Option<string>)
    ensures r.Some? ==> Matches(s, r.value)
    ensures r.Some? ==> |r.value| + HeadLength + 1 == |s|
  {
    if |s| >= HeadLength + 1
       && s[..12] == NetworkSets.SelectorName && IsSpace(s[12])
       && s[13..15] == "==" && IsSpace(s[15])
       && s[16] == '\'' && s[|s| - 1] == '\''
       && '\n' !in s[HeadLength..|s| - 1]
    then
      var d := s[HeadLength..|s| - 1];
      assert s == SelectorText(s[12], s[15], d);
      Some(d)
    else None
  }

  /** Every selector text is recognised, and its domain comes back out:
      the empty domain and domains holding quotes included. */
  lemma ExtractSelector(w1: char, w2: char, d: string)
    requires IsSpace(w1) && IsSpace(w2) && '\n' !in d
    ensures ExtractDomain(SelectorText(w1, w2, d)) == Some(d)
  {
    var s := SelectorText(w1, w2, d);
    assert s[..12] == NetworkSets.SelectorName;
    assert s[12] == w1 && s[13..15] == "==" && s[15] == w2 && s[16] == '\'';
    assert s[HeadLength..|s| - 1] == d;
  }

  /** The matcher accepts exactly the texts of the pattern. */
  lemma ExtractComplete(s: string, d: string)
    ensures ExtractDomain(s) == Some(d) <==> Matches(s, d)
  {
    if Matches(s, d) {
      var w1, w2 :| IsSpace(w1) && IsSpace(w2) && s == SelectorText(w1, w2, d);
      ExtractSelector(w1, w2, d);
    }
  }

  /** A selector text has one domain. */
  lemma MatchUnique(s: string, d: string, d': string)
    requires Matches(s, d) && Matches(s, d')
    ensures d == d'
  {
    ExtractComplete(s, d);
    ExtractComplete(s, d');
  }

  /** A newline inside the quotes is not matched by `.`. */
  lemma NewlineRejected(w1: char, w2: char, d: string)
    requires '\n' in d
    ensures ExtractDomain(SelectorText(w1, w2, d)).None?
  {
    var s := SelectorText(w1, w2, d);
    assert s[HeadLength..|s| - 1] == d;
  }

  /** Two separator characters before `==` are one too many. */
  lemma DoubleSpaceRejected(w0: char, w1: char, w2: char, d: string)
    requires IsSpace(w0)
    ensures ExtractDomain(NetworkSets.SelectorName + [w0, w1] + "==" + [w2] + "'" + d + "'").None?
  {
    var s := NetworkSets.SelectorName + [w0, w1] + "==" + [w2] + "'" + d + "'";
    assert s[13] == w1 && s[14] == '=';
    if w1 == '=' {
      assert s[15] == '=';
    }
  }

  /** Any two-character operator other than `==` is not matched. */
  lemma OtherOperatorRejected(w1: char, op: string, w2: char, d: string)
    requires |op| == 2 && op != "=="
    ensures ExtractDomain(NetworkSets.SelectorName + [w1] + op + [w2] + "'" + d + "'").None?
  {
    var s := NetworkSets.SelectorName + [w1] + op + [w2] + "'" + d + "'";
    assert s[13..15] == op;
  }

  /** Text after the closing quote is rejected, unless it itself ends in a
      quote, in which case the greedy capture swallows it. */
  lemma TrailingTextRejected(w1: char, w2: char, d: string, t: string)
    requires |t| > 0 && t[|t| - 1] != '\''
    ensures ExtractDomain(SelectorText(w1, w2, d) + t).None?
  {
    var s := SelectorText(w1, w2, d) + t;
    assert s[|s| - 1] == t[|t| - 1];
  }

  lemma TrailingQuoteCaptured(w1: char, w2: char, d: string, t: string)
    requires IsSpace(w1) && IsSpace(w2) && '\n' !in d && '\n' !in t
    ensures ExtractDomain(SelectorText(w1, w2, d) + t + "'") == Some(d + "'" + t)
  {
    assert SelectorText(w1, w2, d) + t + "'" == SelectorText(w1, w2, d + "'" + t);
    ExtractSelector(w1, w2, d + "'" + t);
  }

  /** The keyword must open the text. */
  lemma MissingPrefixRejected(s: string)
    requires !(NetworkSets.SelectorName <= s)
    ensures ExtractDomain(s).None?
  {
  }
}
