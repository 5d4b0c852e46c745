/** Substring search as Python's `in` and `str.find` have it. */
module Text {

  predicate MatchesAt(needle: string, text: string, k: nat) {
    k + |needle| <= |text| && text[k..k + |needle|] == needle
  }

  predicate Occurs(needle: string, text: string) {
    exists k: nat :: k <= |text| && MatchesAt(needle, text, k)
  }

  /** `text.find(needle, start)`: the first match at or after `start`, or -1. */
  function Find(needle: string, text: string, start: nat): (k: int)
    ensures k == -1 || (start <= k <= |text| && MatchesAt(needle, text, k))
    ensures forall j: nat :: start <= j <= |text| && MatchesAt(needle, text, j) ==> k != -1 && k <= j
    decreases |text| + 1 - start
  {
    if start > |text| then -1
    else if MatchesAt(needle, text, start) then start
    else Find(needle, text, start + 1)
  }
}
