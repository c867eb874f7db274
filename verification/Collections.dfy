/** Facts about sets and sequences that several components need. */
module Collections {

  ghost predicate NoDup(s: seq<nat>) {
    forall i: nat, k: nat :: i < k < |s| ==> s[i] != s[k]
  }

  lemma SubsetSize(a: set<nat>, b: set<nat>)
    requires a <= b
    ensures |a| <= |b| && |b - a| == |b| - |a| && (a != b ==> |a| < |b|)
  {
    assert b == a + (b - a);
  }
}
