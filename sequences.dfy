/** Facts about sequences shared by the field, the catalogue and the scenes. */
module Sequences {

  /** No value occurs at two positions. */
  predicate Distinct<T(==)>(s: seq<T>) {
    forall i, j :: 0 <= i < j < |s| ==> s[i] != s[j]
  }

  /** The prefix one longer than s[..i] adds s[i]. */
  lemma PrefixStep<T>(s: seq<T>, i: nat)
    requires i < |s|
    ensures s[..i + 1] == s[..i] + [s[i]]
  {
  }
}
