/**
 What several parts of the model share.
 */
module Common {

  datatype Option<T> = None | Some(value: T)

  function Pow2(k: nat): (n: nat)
    ensures n >= 1
  {
    if k == 0 then 1 else 2 * Pow2(k - 1)
  }

  ghost predicate Distinct<T>(s: seq<T>) {
    forall i, j :: 0 <= i < j < |s| ==> s[i] != s[j]
  }

  /* The ranges from a up to b and from c up to d have a number in common, if neither is empty. */
  predicate Intersect(a: nat, b: nat, c: nat, d: nat) {
    a < d && c < b
  }

  lemma SubsetSize<T>(a: set<T>, b: set<T>)
    requires a <= b
    ensures |a| <= |b|
  {
    assert b == a + (b - a);
  }
}
