/** Sequences and multisets of any elements. */
module Sequences {
  ghost predicate Distinct<T>(s: seq<T>) {
    forall i, j :: 0 <= i < j < |s| ==> s[i] != s[j]
  }

  lemma Cancelled<T>(a: multiset<T>, b: multiset<T>, x: multiset<T>)
    ensures a + x == b + x ==> a == b
  {
    assert a == (a + x) - x && b == (b + x) - x;
  }
}
