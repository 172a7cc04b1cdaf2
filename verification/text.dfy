/** String helpers the controllers use from Go's `strings` package:
    substring search (`strings.Contains`), single-character replacement
    (`strings.ReplaceAll` with one-character patterns) and first-index search. */
module Text {

  import opened Wrappers

  /** `strings.Contains(s, sub)`: `sub` occurs somewhere in `s`. The empty
      string occurs in every string. */
  predicate Contains(s: string, sub: string) {
    exists i | 0 <= i <= |s| - |sub| :: sub <= s[i..]
  }

  /** A string contains each of its prefixes, in particular a generated
      name `policyName + "-" + token` contains `policyName`. */
  lemma ContainsPrefix(p: string, t: string)
    ensures Contains(p + t, p)
  {
    assert p <= (p + t)[0..];
  }

  /** `strings.ReplaceAll(s, [from], [to])`. */
  function ReplaceChar(s: string, from: char, to: char): (r: string)
    ensures |r| == |s|
    ensures forall i :: 0 <= i < |s| ==> r[i] == (if s[i] == from then to else s[i])
  {
    if |s| == 0 then []
    else [if s[0] == from then to else s[0]] + ReplaceChar(s[1..], from, to)
  }

  /** Index of the first occurrence of `c` in `s`, as `strings.Cut` finds it. */
  function IndexOf(s: string, c: char): (r: Option<nat>)
    ensures r.None? <==> c !in s
    ensures r.Some? ==> r.value < |s| && s[r.value] == c && c !in s[..r.value]
  {
    if |s| == 0 then None
    else if s[0] == c then Some(0)
    else match IndexOf(s[1..], c)
      case None => None
      case Some(k) =>
        assert s[..k + 1] == [s[0]] + s[1..][..k];
        Some(k + 1)
  }
}
