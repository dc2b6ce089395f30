/** Orders of numbers in sequences. */
module Orders {

  /** The numbers never go down. */
  ghost predicate Ascending(s: seq<int>)
  {
    forall i, j :: 0 <= i <= j < |s| ==> s[i] <= s[j]
  }
}
