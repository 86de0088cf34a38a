/** Amplifier phase settings (2019/7/aoc7.go): the next permutation in
    lexicographic order, and the in-place reverse it relies on. The slices
    the source updates in place are sequences here; each method returns the
    updated sequence.
 */
module Permutation {
  import opened Wrappers

  /** Each element is at least the next one. */
  predicate NonIncreasing(s: seq<int>) {
    forall k :: 0 <= k < |s| - 1 ==> s[k] >= s[k + 1]
  }

  predicate NonDecreasing(s: seq<int>) {
    forall k :: 0 <= k < |s| - 1 ==> s[k] <= s[k + 1]
  }

  /** a and b agree before k, and a is smaller at k. */
  predicate LessAt(a: seq<int>, b: seq<int>, k: int) {
    0 <= k < |a| && k < |b| && a[..k] == b[..k] && a[k] < b[k]
  }

  /** Strict lexicographic order on sequences of one length. */
  predicate LexLess(a: seq<int>, b: seq<int>) {
    |a| == |b| && exists k :: 0 <= k < |a| && LessAt(a, b, k)
  }

  predicate IsPermutation(a: seq<int>, b: seq<int>) {
    |a| == |b| && multiset(a) == multiset(b)
  }

  /** b comes right after a: it is a permutation of a, greater than a, and
      no permutation of a lies strictly between them. */
  ghost predicate IsSuccessor(a: seq<int>, b: seq<int>) {
    IsPermutation(a, b) && LexLess(a, b) &&
    forall p :: IsPermutation(a, p) && LexLess(a, p) ==> !LexLess(p, b)
  }

  function Rev(s: seq<int>): (r: seq<int>)
    ensures |r| == |s| && forall k :: 0 <= k < |s| ==> r[k] == s[|s| - 1 - k]
  {
    if |s| == 0 then [] else Rev(s[1..]) + [s[0]]
  }

  /** reverse: swap from both ends towards the middle. */
  method Reverse(a: seq<int>) returns (r: seq<int>)
    ensures r == Rev(a)
  {
    r := a;
    if |a| == 0 {
      return;
    }
    var i, j := 0, |a| - 1;
    while i < j
      invariant 0 <= i <= j + 1 <= |a| && i + j == |a| - 1 && |r| == |a|
      invariant forall k :: 0 <= k < i ==> r[k] == a[|a| - 1 - k]
      invariant forall k :: j < k < |a| ==> r[k] == a[|a| - 1 - k]
      invariant forall k :: i <= k <= j ==> r[k] == a[k]
    {
      r := r[i := r[j]][j := r[i]];
      i, j := i + 1, j - 1;
    }
  }

  /** Reversing twice gives the slice back. */
  lemma RevRev(s: seq<int>)
    ensures Rev(Rev(s)) == s
  {
  }

  lemma {:induction false} RevMultiset(s: seq<int>)
    ensures multiset(Rev(s)) == multiset(s)
  {
    if |s| > 0 {
      RevMultiset(s[1..]);
      assert s == [s[0]] + s[1..];
    }
  }

  lemma RevNonIncreasing(s: seq<int>)
    requires NonIncreasing(s)
    ensures NonDecreasing(Rev(s))
  {
  }

  /** A lexicographic comparison cannot go both ways. */
  lemma LessAtAsymmetric(a: seq<int>, b: seq<int>, k: int, m: int)
    requires LessAt(a, b, k)
    ensures !LessAt(b, a, m)
  {
  }

  /** Every element of a non-increasing sequence is at most its first. */
  lemma HeadIsMax(s: seq<int>, q: int)
    requires NonIncreasing(s) && 0 <= q < |s|
    ensures s[q] <= s[0]
  {
    var k := q;
    while k > 0
      invariant 0 <= k <= q && s[q] <= s[k]
    {
      k := k - 1;
    }
  }

  lemma HeadIsMin(s: seq<int>, q: int)
    requires NonDecreasing(s) && 0 <= q < |s|
    ensures s[0] <= s[q]
  {
    var k := q;
    while k > 0
      invariant 0 <= k <= q && s[k] <= s[q]
    {
      k := k - 1;
    }
  }

  /** Equal prefixes of two permutations leave permuted suffixes. */
  lemma SuffixPermutation(a: seq<int>, p: seq<int>, k: int)
    requires IsPermutation(a, p) && 0 <= k <= |a| && a[..k] == p[..k]
    ensures IsPermutation(a[k..], p[k..])
  {
    assert a == a[..k] + a[k..];
    assert p == p[..k] + p[k..];
    assert multiset(a) == multiset(a[..k]) + multiset(a[k..]);
    assert multiset(p) == multiset(p[..k]) + multiset(p[k..]);
    assert multiset(a[k..]) == multiset(a) - multiset(a[..k]);
    assert multiset(p[k..]) == multiset(p) - multiset(p[..k]);
  }

  /** A non-increasing sequence is the largest of its permutations. */
  lemma {:induction false} DescendingIsLargest(s: seq<int>, p: seq<int>, k: int)
    requires NonIncreasing(s) && IsPermutation(s, p)
    ensures !LessAt(s, p, k)
    decreases |s|
  {
    if LessAt(s, p, k) {
      if k == 0 {
        assert p[0] in multiset(s);
        var q :| 0 <= q < |s| && s[q] == p[0];
        HeadIsMax(s, q);
      } else {
        assert s[0] == s[..k][0] == p[..k][0] == p[0];
        SuffixPermutation(s, p, 1);
        assert s[1..][..k - 1] == s[1..k] == p[1..k] == p[1..][..k - 1];
        DescendingIsLargest(s[1..], p[1..], k - 1);
      }
    }
  }

  /** A non-decreasing sequence is the smallest of its permutations. */
  lemma {:induction false} AscendingIsSmallest(s: seq<int>, p: seq<int>, k: int)
    requires NonDecreasing(s) && IsPermutation(s, p)
    ensures !LessAt(p, s, k)
    decreases |s|
  {
    if LessAt(p, s, k) {
      if k == 0 {
        assert p[0] in multiset(s);
        var q :| 0 <= q < |s| && s[q] == p[0];
        HeadIsMin(s, q);
      } else {
        assert s[0] == s[..k][0] == p[..k][0] == p[0];
        SuffixPermutation(s, p, 1);
        assert s[1..][..k - 1] == s[1..k] == p[1..k] == p[1..][..k - 1];
        AscendingIsSmallest(s[1..], p[1..], k - 1);
      }
    }
  }

  /** The sequence next builds from the pivot i and the swap partner j. */
  function Rearrange(a: seq<int>, i: int, j: int): seq<int>
    requires 0 <= i < j < |a|
  {
    var s := a[i := a[j]][j := a[i]];
    s[..i + 1] + Rev(s[i + 1..])
  }

  /** The pivot i is the last ascent, and j is the last place after it that
      holds something larger than a[i]. */
  predicate Pivots(a: seq<int>, i: int, j: int) {
    0 <= i < j < |a| && a[i] < a[i + 1] && NonIncreasing(a[i + 1..]) && a[i] < a[j] &&
    forall k :: j < k < |a| ==> a[k] <= a[i]
  }

  /** After the swap the suffix is still non-increasing. */
  lemma SwappedSuffix(a: seq<int>, i: int, j: int)
    requires Pivots(a, i, j)
    ensures NonIncreasing(a[i := a[j]][j := a[i]][i + 1..])
  {
    var s := a[i := a[j]][j := a[i]];
    forall k | i + 1 <= k < |a| - 1
      ensures s[k] >= s[k + 1]
    {
      assert a[i + 1..][k - i - 1] >= a[i + 1..][k - i];
      if k + 1 == j {
        assert s[k] == a[k] >= a[j] > a[i] == s[k + 1];
      } else if k == j {
        assert s[k] == a[i] >= a[k + 1] == s[k + 1];
      }
    }
    NonIncreasingFrom(s, i + 1);
  }

  /** Any value after the pivot that is larger than a[i] is at least a[j]. */
  lemma SmallestLarger(a: seq<int>, i: int, j: int, q: int)
    requires Pivots(a, i, j) && i < q < |a| && a[q] > a[i]
    ensures a[q] >= a[j]
  {
    if q < j {
      var k := q;
      while k < j
        invariant q <= k <= j && a[k] <= a[q]
      {
        assert a[i + 1..][k - i - 1] >= a[i + 1..][k - i];
        k := k + 1;
      }
    }
  }

  /** Swapping two positions keeps the multiset. */
  lemma SwapMultiset(a: seq<int>, i: int, j: int)
    requires 0 <= i < j < |a|
    ensures multiset(a[i := a[j]][j := a[i]]) == multiset(a)
  {
  }

  /** Reversing the suffix after i keeps the multiset. */
  lemma RevSuffixMultiset(s: seq<int>, i: int)
    requires 0 <= i < |s|
    ensures multiset(s[..i + 1] + Rev(s[i + 1..])) == multiset(s)
  {
    var pre, post := s[..i + 1], s[i + 1..];
    RevMultiset(post);
    assert s == pre + post;
  }

  /** next rearranges a into a permutation that is larger first at i. */
  lemma RearrangePermutes(a: seq<int>, i: int, j: int)
    requires Pivots(a, i, j)
    ensures IsPermutation(a, Rearrange(a, i, j)) && LessAt(a, Rearrange(a, i, j), i)
  {
    var s := a[i := a[j]][j := a[i]];
    var r := Rearrange(a, i, j);
    assert r == s[..i + 1] + Rev(s[i + 1..]);
    SwapMultiset(a, i, j);
    RevSuffixMultiset(s, i);
    assert r[..i] == s[..i] == a[..i];
    assert r[i] == s[i] == a[j];
  }

  /** A permutation that raises position i puts there at least a[j], the
      value next puts there. */
  lemma PivotAtLeast(a: seq<int>, i: int, j: int, p: seq<int>)
    requires Pivots(a, i, j) && IsPermutation(a, p) && LessAt(a, p, i)
    ensures a[j] <= p[i]
  {
    SuffixPermutation(a, p, i);
    assert p[i] == p[i..][0];
    assert p[i] in multiset(a[i..]);
    var q :| 0 <= q < |a[i..]| && a[i..][q] == p[i];
    assert a[i + q] == p[i] && q > 0;
    SmallestLarger(a, i, j, i + q);
  }

  /** What next puts after position i is ascending. */
  lemma TailAscending(a: seq<int>, i: int, j: int)
    requires Pivots(a, i, j)
    ensures NonDecreasing(Rearrange(a, i, j)[i + 1..])
  {
    var s := a[i := a[j]][j := a[i]];
    SwappedSuffix(a, i, j);
    assert Rearrange(a, i, j)[i + 1..] == Rev(s[i + 1..]);
    RevNonIncreasing(s[i + 1..]);
  }

  /** Two permutations that agree up to i, the second ascending after i:
      the first is not below the second. */
  lemma TieBreak(r: seq<int>, p: seq<int>, i: int, m: int)
    requires IsPermutation(r, p) && 0 <= i < |r| && r[..i + 1] == p[..i + 1] && NonDecreasing(r[i + 1..])
    ensures !LessAt(p, r, m)
  {
    if LessAt(p, r, m) {
      if m > i {
        SuffixPermutation(r, p, i + 1);
        assert p[i + 1..][..m - i - 1] == p[i + 1..m] == r[i + 1..m] == r[i + 1..][..m - i - 1];
        AscendingIsSmallest(r[i + 1..], p[i + 1..], m - i - 1);
      }
    }
  }

  /** The case k == i of the successor argument: p raises position i too. */
  lemma PivotCase(a: seq<int>, i: int, j: int, p: seq<int>, m: int)
    requires Pivots(a, i, j) && IsPermutation(a, p) && LessAt(a, p, i)
    ensures !LessAt(p, Rearrange(a, i, j), m)
  {
    var r := Rearrange(a, i, j);
    PivotAtLeast(a, i, j, p);
    assert r[..i] == a[..i] == p[..i];
    if LessAt(p, r, m) {
      if p[i] > r[i] {
        LessAtAsymmetric(p, r, m, i);
      } else {
        assert r[..i + 1] == p[..i + 1];
        RearrangePermutes(a, i, j);
        TailAscending(a, i, j);
        TieBreak(r, p, i, m);
      }
    }
  }

  /** Rearrange(a, i, j) is the successor of a. */
  lemma RearrangeIsSuccessor(a: seq<int>, i: int, j: int)
    requires Pivots(a, i, j)
    ensures IsSuccessor(a, Rearrange(a, i, j))
  {
    var r := Rearrange(a, i, j);
    RearrangePermutes(a, i, j);
    forall p | IsPermutation(a, p) && LexLess(a, p)
      ensures !LexLess(p, r)
    {
      var k :| 0 <= k < |a| && LessAt(a, p, k);
      forall m | 0 <= m < |p|
        ensures !LessAt(p, r, m)
      {
        if k > i {
          SuffixPermutation(a, p, k);
          assert a[i + 1..][k - i - 1..] == a[k..];
          SuffixNonIncreasing(a[i + 1..], k - i - 1);
          assert a[k..][..0] == p[k..][..0];
          DescendingIsLargest(a[k..], p[k..], 0);
        } else if k < i {
          assert r[..i] == a[..i];
          assert r[..k] == a[..k] && r[k] == a[k];
          if LessAt(p, r, m) {
            LessAtAsymmetric(p, r, m, k);
          }
        } else {
          PivotCase(a, i, j, p, m);
        }
      }
    }
  }

  /** Non-increasing from position k on, as a slice. */
  lemma NonIncreasingFrom(s: seq<int>, k: int)
    requires 0 <= k <= |s| && forall q :: k <= q < |s| - 1 ==> s[q] >= s[q + 1]
    ensures NonIncreasing(s[k..])
  {
    forall q | 0 <= q < |s[k..]| - 1
      ensures s[k..][q] >= s[k..][q + 1]
    {
      assert s[k..][q] == s[k + q] && s[k..][q + 1] == s[k + q + 1];
    }
  }

  lemma SuffixNonIncreasing(s: seq<int>, k: int)
    requires NonIncreasing(s) && 0 <= k <= |s|
    ensures NonIncreasing(s[k..])
  {
    forall q | k <= q < |s| - 1
      ensures s[q] >= s[q + 1]
    {
      assert s[q] == s[q - k + k] && s[q + 1] == s[q + 1 - k + k];
    }
    NonIncreasingFrom(s, k);
  }

  /** next: None exactly when a is non-increasing (the last permutation);
      otherwise the lexicographic successor of a. */
  method Next(a: seq<int>) returns (r: Option<seq<int>>)
    ensures r.None? <==> NonIncreasing(a)
    ensures r.Some? ==> IsSuccessor(a, r.value)
  {
    var i := |a| - 2;
    while i >= 0 && a[i] >= a[i + 1]
      invariant -2 <= i <= |a| - 2 && (|a| > 0 ==> i >= -1)
      invariant forall k :: i + 1 <= k < |a| - 1 ==> a[k] >= a[k + 1]
    {
      i := i - 1;
    }
    if i < 0 {
      return None;
    }
    var j := |a| - 1;
    while a[j] <= a[i]
      invariant i < j < |a|
      invariant forall k :: j < k < |a| ==> a[k] <= a[i]
      decreases j
    {
      j := j - 1;
    }
    NonIncreasingFrom(a, i + 1);
    var s := a[i := a[j]][j := a[i]];
    var tail := Reverse(s[i + 1..]);
    RearrangeIsSuccessor(a, i, j);
    r := Some(s[..i + 1] + tail);
  }

  /** The loop in main starts from the smallest arrangement: nothing is a
      permutation of a sorted sequence and smaller than it. */
  lemma SortedIsFirst(s: seq<int>, p: seq<int>)
    requires NonDecreasing(s) && IsPermutation(s, p)
    ensures !LexLess(p, s)
  {
    forall k | 0 <= k < |s|
      ensures !LessAt(p, s, k)
    {
      AscendingIsSmallest(s, p, k);
    }
  }

  /** The phase settings the loop starts from; it is sorted. */
  lemma StartIsSorted()
    ensures NonDecreasing([5, 6, 7, 8, 9]) && !NonIncreasing([5, 6, 7, 8, 9])
  {
    assert [5, 6, 7, 8, 9][0] < [5, 6, 7, 8, 9][1];
  }
}
