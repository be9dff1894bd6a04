/**
 * `insertionSort` of the playground. Despite its name it runs the double scan
 * "for i in 0..<n, for j in 1..<n: if a[i] > a[j] swap a[i], a[j]", which
 * permutes the input and moves its minimum to the front but does not sort it.
 */
module Sorting {

  ghost predicate Sorted(s: seq<int>)
  {
    forall a, b :: 0 <= a < b < |s| ==> s[a] <= s[b]
  }

  /** One step of the scan: `swapAt(i, j)` when `s[i] > s[j]`. */
  function CompareSwap(s: seq<int>, i: nat, j: nat): (r: seq<int>)
    requires i < |s| && j < |s|
    ensures |r| == |s| && multiset(r) == multiset(s)
    ensures r[i] <= r[j] && r[i] <= s[i]
    ensures forall k :: 0 <= k < |s| && k != i && k != j ==> r[k] == s[k]
  {
    if s[i] > s[j] then s[i := s[j]][j := s[i]] else s
  }

  /**
   * Steps `j, j + 1, ..., |s| - 1` of the inner loop of pass `i`. Afterwards
   * position `i` holds nothing larger than what it held and nothing larger
   * than any position the scan visited, and positions below `j` other than
   * `i` are untouched.
   */
  function InnerPass(s: seq<int>, i: nat, j: nat): (r: seq<int>)
    requires i < |s| && 1 <= j
    ensures |r| == |s| && multiset(r) == multiset(s)
    ensures r[i] <= s[i]
    ensures forall k :: j <= k < |s| ==> r[i] <= r[k]
    ensures forall k :: 0 <= k < j && k < |s| && k != i ==> r[k] == s[k]
    decreases |s| - j
  {
    if j >= |s| then s else InnerPass(CompareSwap(s, i, j), i, j + 1)
  }

  /** Passes `i, i + 1, ..., |s| - 1` of the outer loop; passes from 1 on never touch index 0. */
  function OuterPasses(s: seq<int>, i: nat): (r: seq<int>)
    requires i <= |s|
    ensures |r| == |s| && multiset(r) == multiset(s)
    ensures 0 < i && 0 < |s| ==> r[0] == s[0]
    decreases |s| - i
  {
    if i >= |s| then s else OuterPasses(InnerPass(s, i, 1), i + 1)
  }

  /** What `insertionSort` returns for `s`. */
  function DoubleScan(s: seq<int>): (r: seq<int>)
  {
    OuterPasses(s, 0)
  }

  /** The first element of the result is the minimum of the input. */
  lemma DoubleScanFrontIsMinimum(s: seq<int>)
    requires |s| > 0
    ensures DoubleScan(s)[0] in s
    ensures forall k :: 0 <= k < |s| ==> DoubleScan(s)[0] <= s[k]
  {
    var t := InnerPass(s, 0, 1);
    assert DoubleScan(s) == OuterPasses(t, 1);
    assert DoubleScan(s)[0] == t[0];
    assert t[0] in multiset(s);
    forall k | 0 <= k < |s| ensures t[0] <= s[k] {
      assert s[k] in multiset(t);
      var m :| 0 <= m < |t| && t[m] == s[k];
    }
  }

  /** The result is not sorted in general: `[1, 2, 3]` comes back as `[1, 3, 2]`. */
  lemma DoubleScanDoesNotSort()
    ensures DoubleScan([1, 2, 3]) == [1, 3, 2]
    ensures !Sorted(DoubleScan([1, 2, 3]))
  {
    assert InnerPass([1, 2, 3], 0, 1) == [1, 2, 3];
    assert InnerPass([1, 2, 3], 1, 1) == [1, 2, 3];
    assert InnerPass([1, 2, 3], 2, 1) == [1, 3, 2];
  }

  /**
   * `insertionSort(array)`: a copy of the input is scanned with the nested
   * loops and returned. The result is a permutation of the input whose first
   * element is the minimum.
   */
  method InsertionSort(input: seq<int>) returns (sorted: seq<int>)
    ensures sorted == DoubleScan(input)
    ensures |sorted| == |input| && multiset(sorted) == multiset(input)
    ensures |input| > 0 ==> sorted[0] in input && forall k :: 0 <= k < |input| ==> sorted[0] <= input[k]
  {
    sorted := input;
    for i := 0 to |sorted|
      invariant |sorted| == |input|
      invariant OuterPasses(sorted, i) == DoubleScan(input)
    {
      for j := 1 to |sorted|
        invariant |sorted| == |input|
        invariant OuterPasses(InnerPass(sorted, i, j), i + 1) == DoubleScan(input)
      {
        if sorted[i] > sorted[j] {
          sorted := sorted[i := sorted[j]][j := sorted[i]];
        }
      }
    }
    if |input| > 0 {
      DoubleScanFrontIsMinimum(input);
    }
  }

  /** Passes `i, ..., |s| - 1` of the corrected scan, whose inner loop starts at `i + 1`. */
  function ExchangePasses(s: seq<int>, i: nat): (r: seq<int>)
    requires i <= |s|
    ensures |r| == |s| && multiset(r) == multiset(s)
    decreases |s| - i
  {
    if i >= |s| then s else ExchangePasses(InnerPass(s, i, i + 1), i + 1)
  }

  /** The corrected scan: "for i in 0..<n, for j in i+1..<n: if a[i] > a[j] swap". */
  function ExchangeScan(s: seq<int>): (r: seq<int>)
  {
    ExchangePasses(s, 0)
  }

  /** Every element of the first `i` positions is at most every later element. */
  ghost predicate PrefixBelowSuffix(s: seq<int>, i: nat)
  {
    forall a, b :: 0 <= a < i <= b < |s| ==> s[a] <= s[b]
  }

  /** Two permutations that agree on a prefix are permutations of each other on the rest. */
  lemma SuffixPermuted(s: seq<int>, t: seq<int>, i: nat)
    requires i <= |s| == |t| && t[..i] == s[..i] && multiset(t) == multiset(s)
    ensures multiset(t[i..]) == multiset(s[i..])
  {
    assert s == s[..i] + s[i..] && t == t[..i] + t[i..];
    assert multiset(s) == multiset(s[..i]) + multiset(s[i..]);
    assert multiset(t) == multiset(t[..i]) + multiset(t[i..]);
    calc {
      multiset(t[i..]);
      multiset(t) - multiset(t[..i]);
      multiset(s) - multiset(s[..i]);
      multiset(s[i..]);
    }
  }

  /** Permuting a suffix keeps every later element at least every element of the prefix. */
  lemma PermutedSuffixStaysAbove(s: seq<int>, t: seq<int>, i: nat, a: nat, b: nat)
    requires i <= |s| == |t| && t[..i] == s[..i] && multiset(t) == multiset(s)
    requires PrefixBelowSuffix(s, i)
    requires a < i <= b < |t|
    ensures t[a] <= t[b]
  {
    SuffixPermuted(s, t, i);
    assert t[b] == t[i..][b - i];
    assert t[b] in multiset(s[i..]);
    var c :| 0 <= c < |s[i..]| && s[i..][c] == t[b];
    assert s[a] <= s[i + c];
    assert t[a] == s[..i][a];
  }

  /**
   * Once the first `i` positions are sorted and hold nothing larger than the
   * rest, the remaining passes of the corrected scan sort the whole sequence.
   */
  lemma {:induction false} ExchangePassesSort(s: seq<int>, i: nat)
    requires i <= |s|
    requires forall a, b :: 0 <= a < b < i ==> s[a] <= s[b]
    requires PrefixBelowSuffix(s, i)
    ensures Sorted(ExchangePasses(s, i))
    decreases |s| - i
  {
    if i < |s| {
      var t := InnerPass(s, i, i + 1);
      assert t[..i] == s[..i];
      forall a, b | 0 <= a < i + 1 <= b < |t| ensures t[a] <= t[b] {
        if a < i {
          PermutedSuffixStaysAbove(s, t, i, a, b);
        }
      }
      forall a, b | 0 <= a < b < i + 1 ensures t[a] <= t[b] {
        if b == i {
          PermutedSuffixStaysAbove(s, t, i, a, b);
        } else {
          assert t[a] == s[a] && t[b] == s[b];
        }
      }
      ExchangePassesSort(t, i + 1);
    } else {
      assert ExchangePasses(s, i) == s;
    }
  }

  /** The corrected scan returns a sorted permutation of its input. */
  lemma ExchangeSortSorts(s: seq<int>)
    ensures Sorted(ExchangeScan(s)) && multiset(ExchangeScan(s)) == multiset(s)
  {
    ExchangePassesSort(s, 0);
  }

  /**
   * The corrected `insertionSort`: the same nested loops with the inner loop
   * starting at `i + 1`. It returns a sorted permutation of its input.
   */
  method ExchangeSort(input: seq<int>) returns (sorted: seq<int>)
    ensures sorted == ExchangeScan(input)
    ensures Sorted(sorted) && multiset(sorted) == multiset(input)
  {
    sorted := input;
    for i := 0 to |sorted|
      invariant |sorted| == |input|
      invariant ExchangePasses(sorted, i) == ExchangeScan(input)
    {
      for j := i + 1 to |sorted|
        invariant |sorted| == |input|
        invariant ExchangePasses(InnerPass(sorted, i, j), i + 1) == ExchangeScan(input)
      {
        if sorted[i] > sorted[j] {
          sorted := sorted[i := sorted[j]][j := sorted[i]];
        }
      }
    }
    ExchangeSortSorts(input);
  }
}
