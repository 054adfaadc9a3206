/**
 * The repository's alphabets (`A`, `X`, `A1`) are `std::set<char>`: an ordered
 * container without duplicates. Membership is all most operations ask of them,
 * but the rule generator also walks the axioms in the container's order, so a
 * set is modelled as its strictly increasing sequence of elements.
 */
module CharSets {

  /** Strictly increasing: the iteration order of a `std::set<char>`. */
  predicate Ordered(s: seq<char>) {
    forall i, j :: 0 <= i < j < |s| ==> s[i] < s[j]
  }

  type CharSet = s: seq<char> | Ordered(s)

}
