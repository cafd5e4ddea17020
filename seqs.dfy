/** Facts about sequences that the line filter and the aggregation both use. */
module Seqs {

  /** A sequence is the part before position `k`, the element at `k`, and the part after it. */
  lemma SplitAt<T>(s: seq<T>, k: nat)
    requires k < |s|
    ensures s == s[..k] + [s[k]] + s[k + 1..]
  {
  }
}
