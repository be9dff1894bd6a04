/** Recursive binary search over a half-open index range `[lo, hi)`. */
module Searching {
  import opened Wrappers

  /** The slice `a[lo..hi]` is in ascending order. */
  ghost predicate SortedRange(a: seq<int>, lo: int, hi: int)
    requires lo <= hi && (lo < hi ==> 0 <= lo && hi <= |a|)
  {
    forall i, j :: lo <= i < j < hi ==> a[i] <= a[j]
  }

  /**
   * `binarySearch(a, key:, range: lo..<hi)`. A Swift `Range` has `lo <= hi`;
   * a non-empty range is indexed, so it must lie within the array. The
   * midpoint is `lo + (hi - lo) / 2`, which never leaves the range.
   */
  function BinarySearch(a: seq<int>, key: int, lo: int, hi: int): (r: Option<int>)
    requires lo <= hi && (lo < hi ==> 0 <= lo && hi <= |a|)
    ensures r.Some? ==> lo <= r.value < hi && a[r.value] == key
    ensures r.None? && SortedRange(a, lo, hi) ==> forall i :: lo <= i < hi ==> a[i] != key
    decreases hi - lo
  {
    if lo >= hi then
      None
    else
      var mid := lo + (hi - lo) / 2;
      if a[mid] > key then BinarySearch(a, key, lo, mid)
      else if a[mid] < key then BinarySearch(a, key, mid + 1, hi)
      else Some(mid)
  }

  /** On a sorted range the search fails exactly when the key does not occur in it. */
  lemma NotFoundIffAbsent(a: seq<int>, key: int, lo: int, hi: int)
    requires 0 <= lo <= hi <= |a| && SortedRange(a, lo, hi)
    ensures BinarySearch(a, key, lo, hi).None? <==> key !in a[lo..hi]
  {
    var r := BinarySearch(a, key, lo, hi);
    if r.Some? {
      assert a[lo..hi][r.value - lo] == key;
    }
  }

  /** `[1, 3, 5, 7, 9]`: 7 is found at index 3 and 4 is not found. */
  lemma SearchExamples()
    ensures BinarySearch([1, 3, 5, 7, 9], 7, 0, 5) == Some(3)
    ensures BinarySearch([1, 3, 5, 7, 9], 4, 0, 5) == None
  {
  }
}
