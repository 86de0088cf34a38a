/** Longest palindromes around every centre of a sequence (2023/13/fastpal.py).

    A sequence of length n has 2n+1 centres: the even radius index 2k is the gap
    before element k, the odd index 2k+1 is element k itself. A palindrome is
    written as the half-open range [lo, hi) it occupies; its centre is lo + hi
    and its length hi - lo.
 */
module Palindromes {
  import opened Wrappers


  /** q[lo..hi) reads the same forwards and backwards: the elements at k and
      k' agree whenever the two positions mirror each other. */
  predicate PalRange<T(==)>(q: seq<T>, lo: int, hi: int) {
    0 <= lo <= hi <= |q| &&
    forall k, k' :: lo <= k < hi && k + k' == lo + hi - 1 ==> q[k] == q[k']
  }

  predicate IsPalindrome<T(==)>(s: seq<T>) {
    PalRange(s, 0, |s|)
  }

  /** [lo, hi) can grow by one element on each side. */
  predicate CanExtend<T(==)>(q: seq<T>, lo: int, hi: int)
    requires 0 <= lo <= hi <= |q|
  {
    lo > 0 && hi < |q| && q[lo - 1] == q[hi]
  }

  /** [lo, hi) is a palindrome that cannot grow around its centre. */
  predicate MaxPal<T(==)>(q: seq<T>, lo: int, hi: int) {
    PalRange(q, lo, hi) && !CanExtend(q, lo, hi)
  }

  /** The inner `while` of naiveLongestPalindromes: widen [s, e) while the two
      newly exposed elements agree. The centre stays put. */
  function Expand<T(==)>(q: seq<T>, s: nat, e: nat): (r: (nat, nat))
    requires s <= e <= |q|
    ensures r.0 <= s && e <= r.1 <= |q| && r.0 + r.1 == s + e
    decreases s
  {
    if s > 0 && e < |q| && q[s - 1] == q[e] then Expand(q, s - 1, e + 1) else (s, e)
  }

  /** Widening a palindrome stops exactly at a maximal one. */
  lemma {:induction false} ExpandMaximal<T>(q: seq<T>, s: nat, e: nat)
    requires s <= e <= |q| && PalRange(q, s, e)
    ensures MaxPal(q, Expand(q, s, e).0, Expand(q, s, e).1)
    decreases s
  {
    if s > 0 && e < |q| && q[s - 1] == q[e] {
      Extend(q, e, e - s);
      ExpandMaximal(q, s - 1, e + 1);
    }
  }

  /** Length of the palindrome the naive scan finds at radius index x. */
  function Radius<T(==)>(q: seq<T>, x: nat): nat
    requires x <= 2 * |q|
  {
    var r := Expand(q, x / 2, x / 2 + x % 2);
    r.1 - r.0
  }

  /** L is the length of the longest palindrome centred at radius index i:
      the palindrome [(i - L) / 2, (i + L) / 2) cannot grow, and no palindrome
      around that centre is longer. */
  ghost predicate LongestAt<T>(q: seq<T>, i: int, L: int) {
    0 <= L <= i && i + L <= 2 * |q| && L % 2 == i % 2 &&
    MaxPal(q, (i - L) / 2, (i + L) / 2) &&
    forall lo, hi :: lo + hi == i && PalRange(q, lo, hi) ==> hi - lo <= L
  }

  /** naiveLongestPalindromes: one expansion per centre, 2n + 1 centres in
      all; the outermost centres see only the empty palindrome. */
  function NaiveLongestPalindromes<T(==)>(q: seq<T>): (l: seq<nat>)
    ensures |l| == 2 * |q| + 1
    ensures l[0] == 0 && l[2 * |q|] == 0
  {
    seq(2 * |q| + 1, x requires 0 <= x <= 2 * |q| => Radius(q, x))
  }

  /** Entry x of the naive result is the radius found at x. */
  lemma NaiveIsRadius<T>(q: seq<T>, x: nat)
    requires x <= 2 * |q|
    ensures NaiveLongestPalindromes(q)[x] == Radius(q, x)
  {
  }

  /** Every entry of the naive result is the longest length at its centre. */
  lemma NaiveLongest<T>(q: seq<T>)
    ensures forall i :: 0 <= i <= 2 * |q| ==> LongestAt(q, i, NaiveLongestPalindromes(q)[i])
  {
    forall i | 0 <= i <= 2 * |q| ensures LongestAt(q, i, NaiveLongestPalindromes(q)[i]) {
      RadiusLongest(q, i);
    }
  }

  /** The longest length at a centre is unique, so the naive result is the
      only array of longest lengths. */
  lemma LongestAtUnique<T>(q: seq<T>, i: int, L: int, L': int)
    requires LongestAt(q, i, L) && LongestAt(q, i, L')
    ensures L == L'
  {
    var a, b := Span(q, i, L);
    var a', b' := Span(q, i, L');
    MaxPalUnique(q, a, b, a', b');
  }

  lemma LongestArrayUnique<T>(q: seq<T>, l: seq<nat>)
    requires |l| == 2 * |q| + 1 && forall i :: 0 <= i < |l| ==> LongestAt(q, i, l[i])
    ensures |l| == 2 * |q| + 1
    ensures forall i :: 0 <= i < |l| ==> LongestAt(q, i, l[i])
    ensures l == NaiveLongestPalindromes(q)
  {
    var n := NaiveLongestPalindromes(q);
    NaiveLongest(q);
    forall i | 0 <= i < |l| ensures l[i] == n[i] {
      LongestAtUnique(q, i, l[i], n[i]);
    }
  }

  function Min(a: nat, b: nat): nat {
    if a < b then a else b
  }

  /** The palindrome a radius array entry stands for: it starts at
      i/2 - l[i]/2 and is l[i] long. */
  function Decode<T>(q: seq<T>, radii: seq<nat>, i: nat): seq<T>
    requires i < |radii| && i / 2 - radii[i] / 2 >= 0 && i / 2 - radii[i] / 2 + radii[i] <= |q|
  {
    q[i / 2 - radii[i] / 2 .. i / 2 - radii[i] / 2 + radii[i]]
  }

  /** Every entry of the naive result decodes to a palindrome of exactly that length. */
  lemma DecodeIsPalindrome<T>(q: seq<T>, i: nat)
    requires i <= 2 * |q|
    ensures var l := NaiveLongestPalindromes(q);
      i / 2 - l[i] / 2 >= 0 && i / 2 - l[i] / 2 + l[i] <= |q| &&
      |Decode(q, l, i)| == l[i] && IsPalindrome(Decode(q, l, i))
  {
    var l := NaiveLongestPalindromes(q);
    NaiveIsRadius(q, i);
    RadiusLongest(q, i);
    var lo, hi := Span(q, i, l[i]);
    assert lo == i / 2 - l[i] / 2;
    var s := Decode(q, l, i);
    forall k, k' | 0 <= k < |s| && k + k' == |s| - 1 ensures s[k] == s[k'] {
      assert s[k] == q[lo + k] && s[k'] == q[lo + k'];
    }
  }

  /** Radius picks the maximal palindrome around centre x. */
  lemma RadiusIsMax<T>(q: seq<T>, x: nat)
    requires x <= 2 * |q|
    ensures var r := Expand(q, x / 2, x / 2 + x % 2);
      r.0 + r.1 == x && Radius(q, x) == r.1 - r.0 && MaxPal(q, r.0, r.1)
  {
    assert PalRange(q, x / 2, x / 2 + x % 2);
    ExpandMaximal(q, x / 2, x / 2 + x % 2);
  }

  lemma RadiusLongest<T>(q: seq<T>, x: nat)
    requires x <= 2 * |q|
    ensures LongestAt(q, x, Radius(q, x))
  {
    RadiusIsMax(q, x);
    var r := Expand(q, x / 2, x / 2 + x % 2);
    MaxPalLongest(q, r.0, r.1, x, Radius(q, x));
  }

  /** Palindromes sharing a centre are nested: a maximal one is the longest. */
  lemma MaxPalIsLongest<T>(q: seq<T>, lo: int, hi: int, lo': int, hi': int)
    requires MaxPal(q, lo, hi) && PalRange(q, lo', hi') && lo + hi == lo' + hi'
    ensures lo <= lo' && hi' <= hi
  {
    WiderExtends(q, lo, hi, lo', hi');
  }

  /** A strictly wider palindrome around the same centre lets [lo, hi) grow. */
  lemma WiderExtends<T>(q: seq<T>, lo: int, hi: int, lo': int, hi': int)
    ensures PalRange(q, lo, hi) && PalRange(q, lo', hi') && lo + hi == lo' + hi' && lo' < lo ==> CanExtend(q, lo, hi)
  {
    if PalRange(q, lo, hi) && PalRange(q, lo', hi') && lo + hi == lo' + hi' && lo' < lo {
      assert q[lo - 1] == q[lo' + hi' - 1 - (lo - 1)];
    }
  }

  /** Two maximal palindromes around one centre coincide. */
  lemma MaxPalUnique<T>(q: seq<T>, lo: int, hi: int, lo': int, hi': int)
    requires MaxPal(q, lo, hi) && MaxPal(q, lo', hi') && lo + hi == lo' + hi'
    ensures lo == lo' && hi == hi'
  {
    MaxPalIsLongest(q, lo, hi, lo', hi');
    MaxPalIsLongest(q, lo', hi', lo, hi);
  }

  /** Any maximal palindrome is the longest one around its centre x. */
  lemma MaxPalLongest<T>(q: seq<T>, lo: int, hi: int, x: int, L: int)
    requires MaxPal(q, lo, hi) && x == lo + hi && L == hi - lo
    ensures LongestAt(q, x, L)
  {
    forall lo', hi' | lo' + hi' == x && PalRange(q, lo', hi') ensures hi' - lo' <= L {
      MaxPalIsLongest(q, lo, hi, lo', hi');
    }
  }

  /** The extension step: equal neighbours grow a palindrome by two. */
  lemma Extend<T>(q: seq<T>, i: int, palLen: int)
    requires PalRange(q, i - palLen, i) && palLen < i < |q| && q[i - palLen - 1] == q[i]
    ensures PalRange(q, (i + 1) - (palLen + 2), i + 1)
  {
  }

  /** Every single element is a palindrome; stated for the scan's step that
      restarts with the length-1 palindrome ending at i + 1. */
  lemma Single<T>(q: seq<T>, i: int)
    requires 0 <= i < |q|
    ensures PalRange(q, (i + 1) - 1, i + 1)
  {
  }

  /** The palindrome a longest length L at centre j stands for. */
  lemma Span<T>(q: seq<T>, j: int, L: int) returns (a: int, b: int)
    requires LongestAt(q, j, L)
    ensures a == (j - L) / 2 && b == (j + L) / 2
    ensures a + b == j && b - a == L && MaxPal(q, a, b)
  {
    a, b := (j - L) / 2, (j + L) / 2;
  }

  /** A palindrome stays one when trimmed equally on both sides. */
  lemma Shrink<T>(q: seq<T>, a: int, b: int, lo: int, hi: int)
    requires PalRange(q, a, b) && a <= lo <= hi && lo + hi == a + b
    ensures PalRange(q, lo, hi)
  {
  }

  /** Reading a sub-range of a big palindrome [LO, HI) through its mirror. */
  lemma MirrorRange<T>(q: seq<T>, LO: int, HI: int, a: int, b: int)
    requires PalRange(q, LO, HI) && PalRange(q, a, b) && LO <= a && b <= HI
    ensures PalRange(q, LO + HI - b, LO + HI - a)
  {
    var c := LO + HI;
    forall k | c - b <= k < c - a
      ensures q[k] == q[(c - b) + (c - a) - 1 - k]
    {
      var k' := (c - b) + (c - a) - 1 - k;
      assert q[k] == q[c - 1 - k];
      assert q[k'] == q[c - 1 - k'];
      assert q[c - 1 - k] == q[a + b - 1 - (c - 1 - k)];
    }
  }

  /** The mirrored copy, in three cases. [LO, HI) is a maximal palindrome and
      L the longest length at a centre j in its left half; d = j - 2 * LO is
      the length a palindrome around j needs to reach the left edge LO.
      Shorter than d, its mirror image is the longest around the mirror
      centre too. */
  lemma MirrorInside<T>(q: seq<T>, LO: int, HI: int, j: int, L: int, m: int, v: int)
    requires MaxPal(q, LO, HI) && 2 * LO <= j < LO + HI && LongestAt(q, j, L)
    requires L < j - 2 * LO && m == 2 * (LO + HI) - j && v == L
    ensures LongestAt(q, m, v)
  {
    var c := LO + HI;
    var a, b := Span(q, j, L);
    MirrorRange(q, LO, HI, a, b);
    assert q[c - b - 1] == q[b];
    assert q[c - a] == q[a - 1];
    MaxPalLongest(q, c - b, c - a, m, v);
  }

  /** Longer than d, its mirror image is cut off by the right edge HI. */
  lemma MirrorBeyond<T>(q: seq<T>, LO: int, HI: int, j: int, L: int, m: int, v: int)
    requires MaxPal(q, LO, HI) && 2 * LO <= j < LO + HI && LongestAt(q, j, L)
    requires L > j - 2 * LO && m == 2 * (LO + HI) - j && v == j - 2 * LO
    ensures LongestAt(q, m, v)
  {
    var c := LO + HI;
    var a, b := Span(q, j, L);
    var b' := j - LO;
    Shrink(q, a, b, LO, b');
    MirrorRange(q, LO, HI, LO, b');
    assert q[c - b' - 1] == q[b'];
    assert q[b'] == q[LO - 1];
    MaxPalLongest(q, c - b', HI, m, v);
  }

  /** Exactly d long, its mirror image shares the right edge HI; it is the
      longest around its centre when HI is the end of the sequence, and may
      grow past HI otherwise. */
  lemma MirrorEdge<T>(q: seq<T>, LO: int, HI: int, j: int, L: int, m: int)
    requires MaxPal(q, LO, HI) && 2 * LO <= j < LO + HI && LongestAt(q, j, L)
    requires L == j - 2 * LO && m == 2 * (LO + HI) - j
    ensures PalRange(q, HI - L, HI)
    ensures HI == |q| ==> LongestAt(q, m, L)
  {
    var a, b := Span(q, j, L);
    MirrorRange(q, LO, HI, a, b);
    if HI == |q| {
      MaxPalLongest(q, HI - L, HI, m, L);
    }
  }

  /** The mirrored entry the scan copies, min(d, l[j]), is the longest length
      at the mirror centre m = 2c - j, except when l[j] == d and the big
      palindrome does not touch the end: then that length is only known to be
      at least d. */
  lemma MirrorLongest<T>(q: seq<T>, LO: int, HI: int, j: int, L: int, d: int, m: int)
    requires MaxPal(q, LO, HI) && 2 * LO <= j < LO + HI && LongestAt(q, j, L)
    requires d == j - 2 * LO && m == 2 * (LO + HI) - j
    ensures L != d || HI == |q| ==> LongestAt(q, m, Min(d, L))
    ensures L == d ==> PalRange(q, HI - L, HI)
  {
    if L < d {
      MirrorInside(q, LO, HI, j, L, m, Min(d, L));
    } else if L > d {
      MirrorBeyond(q, LO, HI, j, L, m, Min(d, L));
    } else {
      MirrorEdge(q, LO, HI, j, L, m);
    }
  }

  /** When the scan stops extending, the current palindrome is the longest
      around its centre. */
  lemma StopIsLongest<T>(q: seq<T>, i: int, palLen: int)
    requires PalRange(q, i - palLen, i)
    requires i - palLen == 0 || i == |q| || q[i - palLen - 1] != q[i]
    ensures MaxPal(q, i - palLen, i) && LongestAt(q, 2 * i - palLen, palLen)
  {
    MaxPalLongest(q, i - palLen, i, 2 * i - palLen, palLen);
  }

  /** Every entry of l is the longest length at its centre. Stated entry by
      entry from the back, so that a scan appending to l keeps it cheaply. */
  ghost predicate AllLongest<T>(q: seq<T>, l: seq<nat>)
    decreases |l|
  {
    |l| == 0 || (AllLongest(q, l[..|l| - 1]) && LongestAt(q, |l| - 1, l[|l| - 1]))
  }

  lemma {:induction false} AllLongestAt<T>(q: seq<T>, l: seq<nat>, k: int)
    requires AllLongest(q, l) && 0 <= k < |l|
    ensures LongestAt(q, k, l[k])
    decreases |l|
  {
    if k < |l| - 1 {
      AllLongestAt(q, l[..|l| - 1], k);
    }
  }

  lemma AllLongestSnoc<T>(q: seq<T>, l: seq<nat>, k: int, x: nat)
    requires AllLongest(q, l) && LongestAt(q, k, x) && k == |l|
    ensures AllLongest(q, l + [x])
  {
    var m := l + [x];
    assert m[..|m| - 1] == l && m[|m| - 1] == x;
  }

  /** Appending palLen once the palindrome ending at i has stopped growing. */
  lemma AppendLongest<T>(q: seq<T>, l: seq<nat>, palLen: nat, i: nat)
    requires AllLongest(q, l) && |l| == 2 * i - palLen && PalRange(q, i - palLen, i)
    requires i - palLen == 0 || i == |q| || q[i - palLen - 1] != q[i]
    ensures AllLongest(q, l + [palLen]) && MaxPal(q, i - palLen, i)
  {
    StopIsLongest(q, i, palLen);
    AllLongestSnoc(q, l, 2 * i - palLen, palLen);
  }

  /** Appending min(d, l[j]) copies the mirrored entry across the centre of
      the maximal palindrome [LO, HI). */
  lemma AppendMirror<T>(q: seq<T>, l: seq<nat>, LO: nat, HI: nat, j: nat, d: int)
    requires MaxPal(q, LO, HI) && 2 * LO <= j < LO + HI && AllLongest(q, l)
    requires |l| == 2 * (LO + HI) - j && d == j - 2 * LO
    requires l[j] != d || HI == |q|
    ensures AllLongest(q, l + [Min(d, l[j])])
  {
    AllLongestAt(q, l, j);
    MirrorLongest(q, LO, HI, j, l[j], d, |l|);
    AllLongestSnoc(q, l, |l|, Min(d, l[j]));
  }

  /** An entry reaching exactly the left edge LO of [LO, HI) gives a
      palindrome ending at HI, of that same length. */
  lemma SharedEdge<T>(q: seq<T>, l: seq<nat>, LO: nat, HI: nat, j: nat, d: nat)
    requires MaxPal(q, LO, HI) && 2 * LO <= j < LO + HI && AllLongest(q, l)
    requires j < |l| && l[j] == d && d == j - 2 * LO
    ensures PalRange(q, HI - d, HI)
  {
    AllLongestAt(q, l, j);
    MirrorLongest(q, LO, HI, j, l[j], d, 2 * (LO + HI) - j);
  }

  /** A complete array of longest lengths is the naive result. */
  lemma AllLongestIsNaive<T>(q: seq<T>, l: seq<nat>)
    requires AllLongest(q, l) && |l| == 2 * |q| + 1
    ensures forall i :: 0 <= i < |l| ==> LongestAt(q, i, l[i])
    ensures l == NaiveLongestPalindromes(q)
  {
    forall i | 0 <= i < |l| ensures LongestAt(q, i, l[i]) {
      AllLongestAt(q, l, i);
    }
    LongestArrayUnique(q, l);
  }

  /** fastLongestPalindromes: the linear-time scan, with Python's for/else
      written as a `found` flag. It returns exactly the naive result. */
  method FastLongestPalindromes<T(==)>(q: seq<T>) returns (l: seq<nat>)
    ensures |l| == 2 * |q| + 1
    ensures forall i :: 0 <= i < |l| ==> LongestAt(q, i, l[i])
    ensures l == NaiveLongestPalindromes(q)
  {
    var n := |q|;
    l := [];
    var i := 0;
    var palLen := 0;
    while i < n
      invariant 0 <= palLen <= i <= n
      invariant |l| == 2 * i - palLen
      invariant PalRange(q, i - palLen, i)
      invariant AllLongest(q, l)
      decreases n - i, 2 * n + 1 - |l|
    {
      if i > palLen && q[i - palLen - 1] == q[i] {
        Extend(q, i, palLen);
        palLen := palLen + 2;
        i := i + 1;
        continue;
      }
      AppendLongest(q, l, palLen, i);
      l := l + [palLen];
      var edge;
      l, edge := MirrorBack(q, l, i, palLen);
      match edge
      case Some(d) =>
        palLen := d;
      case None =>
        Single(q, i);
        palLen := 1;
        i := i + 1;
    }
    l := FinishScan(q, l, palLen);
  }

  /** The inner for-loop of the scan, with its else branch: after the
      maximal palindrome q[i - palLen .. i] has been appended, l is extended
      by mirroring the entries left of its centre, until one of them reaches
      exactly its left edge (Some(d): a palindrome of length d shares its
      right edge) or the whole right half is filled (None). */
  method MirrorBack<T(==)>(q: seq<T>, l0: seq<nat>, i: nat, palLen: nat)
    returns (l: seq<nat>, edge: Option<nat>)
    requires palLen <= i <= |q| && |l0| == 2 * i - palLen + 1
    requires MaxPal(q, i - palLen, i) && AllLongest(q, l0)
    ensures AllLongest(q, l)
    ensures edge.None? ==> |l| == 2 * i + 1
    ensures edge.Some? ==> edge.value < palLen && |l| == 2 * i - edge.value
                           && PalRange(q, i - edge.value, i)
  {
    l := l0;
    ghost var c := 2 * i - palLen;
    var s := |l| - 2;
    var e := s - palLen;
    var j := s;
    while j > e
      invariant e <= j <= s && s == c - 1 && e == c - 1 - palLen
      invariant |l| == 2 * c - j
      invariant AllLongest(q, l)
      decreases j
    {
      var d := j - e - 1;
      if l[j] == d {
        SharedEdge(q, l, i - palLen, i, j, d);
        return l, Some(d);
      }
      AppendMirror(q, l, i - palLen, i, j, d);
      l := l + [Min(d, l[j])];
      j := j - 1;
    }
    edge := None;
  }

  /** The closing pass of the scan: once i has reached the end, the last
      palindrome cannot grow, and the rest of l is mirrored across its centre
      until l has 2 * |q| + 1 entries. */
  method FinishScan<T(==)>(q: seq<T>, l0: seq<nat>, palLen: nat) returns (l: seq<nat>)
    requires palLen <= |q| && |l0| == 2 * |q| - palLen
    requires PalRange(q, |q| - palLen, |q|) && AllLongest(q, l0)
    ensures |l| == 2 * |q| + 1
    ensures forall i :: 0 <= i < |l| ==> LongestAt(q, i, l[i])
    ensures l == NaiveLongestPalindromes(q)
  {
    var n := |q|;
    AppendLongest(q, l0, palLen, n);
    l := l0 + [palLen];
    ghost var c, P := 2 * n - palLen, palLen;
    var lLen := |l|;
    var s := lLen - 2;
    var e := s - (2 * n + 1 - lLen);
    var j := s;
    while j > e
      invariant e <= j <= s && s == c - 1 && e == c - 1 - P
      invariant MaxPal(q, n - P, n)
      invariant |l| == 2 * c - j
      invariant AllLongest(q, l)
      decreases j
    {
      var d := j - e - 1;
      AppendMirror(q, l, n - P, n, j, d);
      l := l + [Min(d, l[j])];
      j := j - 1;
    }
    AllLongestIsNaive(q, l);
  }
}
