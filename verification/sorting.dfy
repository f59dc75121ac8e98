/**
 * Ordering a sequence by a real-valued key, as the BVH builder does with
 * std::sort on triangle centroids. std::sort leaves the order of equal keys
 * unspecified; the model fixes one choice (a stable merge sort), and every
 * property proved below holds for any ordering that sorts by the key.
 */
module Sorting {

  predicate SortedBy<T>(s: seq<T>, key: T -> real) {
    forall i, j :: 0 <= i < j < |s| ==> key(s[i]) <= key(s[j])
  }

  /** Merging two key-sorted sequences, taking from the left one on ties. */
  function Merge<T>(a: seq<T>, b: seq<T>, key: T -> real): (r: seq<T>)
    requires SortedBy(a, key) && SortedBy(b, key)
    ensures |r| == |a| + |b|
    ensures multiset(r) == multiset(a) + multiset(b)
    ensures SortedBy(r, key)
    ensures |r| > 0 ==> (|a| > 0 && r[0] == a[0]) || (|b| > 0 && r[0] == b[0])
    decreases |a| + |b|
  {
    if |a| == 0 then b
    else if |b| == 0 then a
    else if key(b[0]) < key(a[0]) then
      var rest := Merge(a, b[1..], key);
      assert b == [b[0]] + b[1..];
      PrependSorted(b[0], rest, key);
      [b[0]] + rest
    else
      var rest := Merge(a[1..], b, key);
      assert a == [a[0]] + a[1..];
      PrependSorted(a[0], rest, key);
      [a[0]] + rest
  }

  /** Putting an element no larger than the head in front of a sorted sequence keeps it sorted. */
  lemma PrependSorted<T>(x: T, s: seq<T>, key: T -> real)
    requires SortedBy(s, key)
    requires |s| > 0 ==> key(x) <= key(s[0])
    ensures SortedBy([x] + s, key)
  {
    var r := [x] + s;
    forall i, j | 0 <= i < j < |r|
      ensures key(r[i]) <= key(r[j])
    {
      if i > 0 {
        assert r[i] == s[i - 1] && r[j] == s[j - 1];
      } else {
        assert r[j] == s[j - 1];
        assert key(s[0]) <= key(s[j - 1]) || j - 1 == 0;
      }
    }
  }

  /** A merge sort: the result is ordered by the key and is a permutation of the input. */
  function MergeSort<T>(s: seq<T>, key: T -> real): (r: seq<T>)
    ensures |r| == |s|
    ensures multiset(r) == multiset(s)
    ensures SortedBy(r, key)
    decreases |s|
  {
    if |s| <= 1 then s
    else
      var mid := |s| / 2;
      assert s == s[..mid] + s[mid..];
      Merge(MergeSort(s[..mid], key), MergeSort(s[mid..], key), key)
  }

  /**
   * Cutting a key-sorted sequence anywhere leaves no key on the left above
   * any on the right, whatever order each part is later rearranged into.
   */
  lemma SortedHalves<T>(s: seq<T>, key: T -> real, mid: nat, a: seq<T>, b: seq<T>)
    requires SortedBy(s, key) && mid <= |s|
    requires multiset(a) == multiset(s[..mid]) && multiset(b) == multiset(s[mid..])
    ensures forall i, j :: 0 <= i < |a| && 0 <= j < |b| ==> key(a[i]) <= key(b[j])
  {
    forall i, j | 0 <= i < |a| && 0 <= j < |b|
      ensures key(a[i]) <= key(b[j])
    {
      assert a[i] in multiset(s[..mid]);
      assert b[j] in multiset(s[mid..]);
      var x :| 0 <= x < mid && s[x] == a[i];
      var y :| 0 <= y < |s| - mid && s[mid..][y] == b[j];
    }
  }
}
