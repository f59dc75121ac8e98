/** Small facts about sequences and multisets shared by the mesh and BVH proofs. */
module SeqFacts {

  /**
   * When two sequences hold the same multiset, the last element of the first
   * occurs somewhere in the second, and removing the two occurrences leaves
   * sequences that again hold the same multiset.
   */
  lemma SplitLast<T>(a: seq<T>, b: seq<T>) returns (j: int)
    requires multiset(a) == multiset(b) && |a| > 0
    ensures 0 <= j < |b| && b[j] == a[|a| - 1]
    ensures a == a[..|a| - 1] + [a[|a| - 1]]
    ensures b == b[..j] + [b[j]] + b[j + 1..]
    ensures multiset(a[..|a| - 1]) == multiset(b[..j] + b[j + 1..])
  {
    var f := a[|a| - 1];
    assert a == a[..|a| - 1] + [f];
    assert f in multiset(a);
    j :| 0 <= j < |b| && b[j] == f;
    assert b == b[..j] + [f] + b[j + 1..];
    assert multiset(b) == multiset(b[..j]) + multiset{f} + multiset(b[j + 1..]);
    assert multiset(a) == multiset(a[..|a| - 1]) + multiset{f};
    assert multiset(b[..j] + b[j + 1..]) == multiset(b[..j]) + multiset(b[j + 1..]);
    assert multiset(a[..|a| - 1]) == multiset(a) - multiset{f};
    assert multiset(b) - multiset{f} == multiset(b[..j]) + multiset(b[j + 1..]);
  }
}
