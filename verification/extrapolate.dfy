/** Mirage maintenance (2023/9/aoc9.go): extrapolating a history one step
    forwards and one step backwards through its table of differences.
 */
module Extrapolate {

  const Word: int := 0x1_0000_0000_0000_0000

  predicate IsInt64(x: int) {
    -0x8000_0000_0000_0000 <= x < 0x8000_0000_0000_0000
  }

  /** The 64 bits of x in two's complement. */
  function Bits(x: int): bv64 {
    (x % Word) as bv64
  }

  /** isZero's loop: the bitwise or of every entry. */
  function OrAll(a: seq<int>): bv64 {
    if |a| == 0 then 0 else OrAll(a[..|a| - 1]) | Bits(a[|a| - 1])
  }

  predicate IsZero(a: seq<int>) {
    OrAll(a) == 0
  }

  predicate AllZero(a: seq<int>) {
    forall i :: 0 <= i < |a| ==> a[i] == 0
  }

  lemma BitsZero(x: int)
    requires IsInt64(x)
    ensures Bits(x) == 0 <==> x == 0
  {
  }

  lemma OrZero(o: bv64, b: bv64)
    ensures o | b == 0 <==> o == 0 && b == 0
  {
  }

  /** On 64-bit entries the or is zero exactly when every entry is. */
  lemma {:induction false} IsZeroIff(a: seq<int>)
    requires forall i :: 0 <= i < |a| ==> IsInt64(a[i])
    ensures IsZero(a) <==> AllZero(a)
  {
    if |a| > 0 {
      var p, x := a[..|a| - 1], a[|a| - 1];
      assert a == p + [x];
      IsZeroIff(p);
      BitsZero(x);
      OrZero(OrAll(p), Bits(x));
      assert AllZero(a) <==> AllZero(p) && x == 0;
    }
  }

  /** The differences of neighbours. */
  function Diff(a: seq<int>): (d: seq<int>)
    requires |a| > 0
    ensures |d| == |a| - 1
  {
    seq(|a| - 1, i requires 0 <= i < |a| - 1 => a[i + 1] - a[i])
  }

  /** next: the values one before the first and one after the last; the
      recursion stops as soon as the differences are all zero. */
  function Next(a: seq<int>): (r: (int, int))
    requires |a| > 0
    decreases |a|
  {
    var d := Diff(a);
    if AllZero(d) then (a[0], a[0])
    else
      var n := Next(d);
      (a[0] - n.0, a[|a| - 1] + n.1)
  }

  /** The m-th table of differences. */
  function DiffN(a: seq<int>, m: nat): (d: seq<int>)
    requires m <= |a|
    ensures |d| == |a| - m
    decreases m
  {
    if m == 0 then a else DiffN(Diff(a), m - 1)
  }

  /** Appending x to a appends x minus Offset(a, m) to its m-th differences:
      the new last difference depends on x with weight one. */
  function Offset(a: seq<int>, m: nat): int
    requires m <= |a|
    decreases m
  {
    if m == 0 then 0 else a[|a| - 1] + Offset(Diff(a), m - 1)
  }

  lemma DiffSnoc(a: seq<int>, x: int)
    requires |a| > 0
    ensures Diff(a + [x]) == Diff(a) + [x - a[|a| - 1]]
  {
  }

  lemma DiffCons(x: int, a: seq<int>)
    requires |a| > 0
    ensures Diff([x] + a) == [a[0] - x] + Diff(a)
  {
  }

  lemma {:induction false} DiffNSnoc(a: seq<int>, x: int, m: nat)
    requires m <= |a|
    ensures DiffN(a + [x], m) == DiffN(a, m) + [x - Offset(a, m)]
    decreases m
  {
    if m > 0 {
      DiffSnoc(a, x);
      DiffNSnoc(Diff(a), x - a[|a| - 1], m - 1);
    }
  }

  /** The level at which next's recursion stops: the first m >= 1 whose
      differences are all zero. */
  function Depth(a: seq<int>): (m: nat)
    requires |a| > 0
    ensures 1 <= m <= |a| && AllZero(DiffN(a, m))
    decreases |a|
  {
    if AllZero(Diff(a)) then 1 else 1 + Depth(Diff(a))
  }

  /** The history extended by next's right value keeps zero differences at
      the same level: it stays a polynomial of the same degree. So does the
      history extended by the left value. */
  lemma {:induction false} NextExtends(a: seq<int>)
    requires |a| > 0
    ensures AllZero(DiffN(a + [Next(a).1], Depth(a)))
    ensures AllZero(DiffN([Next(a).0] + a, Depth(a)))
    decreases |a|
  {
    var d := Diff(a);
    if AllZero(d) {
      assert Next(a) == (a[0], a[0]) && Depth(a) == 1;
      ConstantExtends(a);
    } else {
      var n, m := Next(a), Depth(d);
      assert n == (a[0] - Next(d).0, a[|a| - 1] + Next(d).1) && Depth(a) == m + 1;
      NextExtends(d);
      DiffSnoc(a, n.1);
      DiffCons(n.0, a);
      assert DiffN(a + [n.1], m + 1) == DiffN(d + [Next(d).1], m);
      assert DiffN([n.0] + a, m + 1) == DiffN([Next(d).0] + d, m);
    }
  }

  /** A history whose differences vanish is constant, so it equals its first
      entry everywhere. */
  lemma {:induction false} ZeroDiffConstant(a: seq<int>, i: int)
    requires |a| > 0 && AllZero(Diff(a)) && 0 <= i < |a|
    ensures a[i] == a[0]
  {
    if i > 0 {
      ZeroDiffConstant(a, i - 1);
      assert Diff(a)[i - 1] == a[i] - a[i - 1];
    }
  }

  /** A constant history extended by its value either way is constant. */
  lemma ConstantExtends(a: seq<int>)
    requires |a| > 0 && AllZero(Diff(a))
    ensures AllZero(DiffN(a + [a[0]], 1)) && AllZero(DiffN([a[0]] + a, 1))
  {
    ConstantRight(a);
    ConstantLeft(a);
  }

  lemma ConstantRight(a: seq<int>)
    requires |a| > 0 && AllZero(Diff(a))
    ensures AllZero(Diff(a + [a[0]]))
  {
    var r := a + [a[0]];
    forall i | 0 <= i < |a|
      ensures Diff(r)[i] == 0
    {
      ZeroDiffConstant(a, i);
      if i + 1 < |a| {
        ZeroDiffConstant(a, i + 1);
      }
    }
  }

  lemma ConstantLeft(a: seq<int>)
    requires |a| > 0 && AllZero(Diff(a))
    ensures AllZero(Diff([a[0]] + a))
  {
    var l := [a[0]] + a;
    forall i | 0 <= i < |a|
      ensures Diff(l)[i] == 0
    {
      if i > 0 {
        ZeroDiffConstant(a, i - 1);
      }
      ZeroDiffConstant(a, i);
    }
  }

  /** Two extensions of a whose m-th differences vanish are equal. */
  lemma SnocUnique(a: seq<int>, x: int, y: int, m: nat)
    requires m <= |a| && AllZero(DiffN(a + [x], m)) && AllZero(DiffN(a + [y], m))
    ensures x == y
  {
    DiffNSnoc(a, x, m);
    DiffNSnoc(a, y, m);
    assert DiffN(a + [x], m)[|a| - m] == x - Offset(a, m);
    assert DiffN(a + [y], m)[|a| - m] == y - Offset(a, m);
  }

  /** Next's right value is the only one with that property. */
  lemma NextRightUnique(a: seq<int>, x: int)
    requires |a| > 0 && AllZero(DiffN(a + [x], Depth(a)))
    ensures x == Next(a).1
  {
    NextExtends(a);
    SnocUnique(a, x, Next(a).1, Depth(a));
  }

  /** A history of two or more entries that steps by s extends by one step
      each way. */
  lemma Arithmetic(a: seq<int>, s: int)
    requires |a| >= 2 && forall i :: 0 <= i < |a| - 1 ==> a[i + 1] - a[i] == s
    ensures Next(a) == (a[0] - s, a[|a| - 1] + s)
  {
    var d := Diff(a);
    assert forall i :: 0 <= i < |d| ==> d[i] == s;
    if s == 0 {
      assert AllZero(d);
      ZeroDiffConstant(a, |a| - 1);
    } else {
      assert d[0] == s;
      ConstantNext(d);
    }
  }

  /** A constant, non-zero history extends by its value. */
  lemma ConstantNext(d: seq<int>)
    requires |d| > 0 && d[0] != 0 && forall i :: 0 <= i < |d| ==> d[i] == d[0]
    ensures !AllZero(d) && Next(d) == (d[0], d[0])
  {
    assert AllZero(Diff(d));
  }
}
