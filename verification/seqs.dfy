/** Facts about sequences that the folds over page fragments and rows share. */
module Seqs {

  /** Every element satisfies `p` exactly when every element of the prefix
      `init` does and the last one does too. */
  lemma AllSnoc<T>(s: seq<T>, init: seq<T>, p: T -> bool)
    requires |s| > 0 && init == s[..|s| - 1]
    ensures (forall i :: 0 <= i < |s| ==> p(s[i])) <==>
      (forall i :: 0 <= i < |init| ==> p(init[i])) && p(s[|s| - 1])
  {
    if forall i :: 0 <= i < |init| ==> p(init[i]) {
      forall i | 0 <= i < |init| ensures p(s[i]) {
        assert s[i] == init[i];
      }
    }
  }
}
