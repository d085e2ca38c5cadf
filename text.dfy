/** String primitives the bot relies on: lowercasing a message and testing
    whether one string occurs inside another (Python's `str.lower` and the
    substring form of `in`). Lowercasing is modelled over ASCII only. */
module TextMatch {

  /** Lowercases one character: 'A'..'Z' map to 'a'..'z', every other
      character is left as it is. */
  function LowerChar(c: char): char
  {
    if 'A' <= c <= 'Z' then (c as int + 32) as char else c
  }

  /** Lowercases a whole string, character by character. */
  function Lower(s: string): (r: string)
    ensures |r| == |s|
    ensures forall i :: 0 <= i < |s| ==> r[i] == LowerChar(s[i])
  {
    if s == [] then [] else [LowerChar(s[0])] + Lower(s[1..])
  }

  /** `pat` occurs in `s` starting at index `i`. */
  predicate OccursAt(s: string, pat: string, i: int)
  {
    0 <= i && i + |pat| <= |s| && s[i..i + |pat|] == pat
  }

  /** Occurrences in `s[1..]` are the occurrences in `s` shifted by one. */
  lemma OccursAtShift(s: string, pat: string)
    requires s != []
    ensures forall i :: i >= 1 ==> (OccursAt(s, pat, i) <==> OccursAt(s[1..], pat, i - 1))
    ensures forall j :: OccursAt(s[1..], pat, j) ==> OccursAt(s, pat, j + 1)
  {
  }

  /** Python's `pat in s` for strings: a left-to-right scan for a contiguous
      occurrence of `pat`. */
  function Contains(s: string, pat: string): (b: bool)
    ensures b <==> exists i :: OccursAt(s, pat, i)
    decreases |s|
  {
    if |s| < |pat| then false
    else if s[..|pat|] == pat then assert OccursAt(s, pat, 0); true
    else OccursAtShift(s, pat); Contains(s[1..], pat)
  }
}
