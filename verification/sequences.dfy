/** Ordering facts about integer sequences shared by the time grid and the detector. */
module Sequences {

  /** Every element is strictly smaller than every later one (so no duplicates). */
  predicate Ascending(s: seq<int>)
  {
    forall i, j :: 0 <= i < j < |s| ==> s[i] < s[j]
  }

  /** In an ascending sequence every element lies between the first and the last. */
  lemma AscendingBounds(s: seq<int>, x: int)
    requires Ascending(s)
    requires x in s
    ensures s[0] <= x <= s[|s| - 1]
  {
  }
}
