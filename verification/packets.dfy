/** Packet decoder (2021/16/aoc16.go): a datagram is a tree of segments,
    each with a version, an operator type and either a literal value or
    sub-segments. eval computes the expression the tree spells, in Go's
    wrapping int arithmetic, and sum adds up the versions. */
module Packets {
  import opened Int64

  /** A Go uint8. */
  type U8 = x: nat | x < 256

  /* The operator types. */
  const ADD: U8 := 0
  const MUL: U8 := 1
  const MIN: U8 := 2
  const MAX: U8 := 3
  const LIT: U8 := 4
  const GT: U8 := 5
  const LT: U8 := 6
  const EQ: U8 := 7

  datatype Seg = Seg(ver: U8, typ: U8, val: Int, sub: seq<Seg>)

  /** The comparisons read args[0] and args[1], which panics unless there
      are two; the other operators evaluate every sub-segment, and LIT and
      the unknown types none. */
  predicate Valid(s: Seg) {
    if s.typ == GT || s.typ == LT || s.typ == EQ then
      |s.sub| >= 2 && Valid(s.sub[0]) && Valid(s.sub[1])
    else if s.typ == LIT || s.typ > EQ then true
    else forall a :: a in s.sub ==> Valid(a)
  }

  predicate AllValid(ss: seq<Seg>) {
    forall a :: a in ss ==> Valid(a)
  }

  /** eval: the accumulator each operator's loop leaves. */
  function Eval(s: Seg): Int
    requires Valid(s)
  {
    if s.typ == ADD then AddAll(0, Evals(s.sub))
    else if s.typ == MUL then MulAll(1, Evals(s.sub))
    else if s.typ == MIN then MinAll(MaxInt, Evals(s.sub))
    else if s.typ == MAX then MaxAll(MinInt, Evals(s.sub))
    else if s.typ == LIT then s.val
    else if s.typ == GT then (if Eval(s.sub[0]) > Eval(s.sub[1]) then 1 else 0)
    else if s.typ == LT then (if Eval(s.sub[0]) < Eval(s.sub[1]) then 1 else 0)
    else if s.typ == EQ then (if Eval(s.sub[0]) == Eval(s.sub[1]) then 1 else 0)
    else 0
  }

  /** The sub-results, in order. */
  function Evals(ss: seq<Seg>): (r: seq<Int>)
    requires AllValid(ss)
    ensures |r| == |ss|
    ensures forall i :: 0 <= i < |ss| ==> r[i] == Eval(ss[i])
  {
    if ss == [] then [] else [Eval(ss[0])] + Evals(ss[1..])
  }

  /* The operator loops, each a left fold of the sub-results into acc. */

  function AddAll(acc: Int, vs: seq<Int>): Int
    decreases |vs|
  {
    if vs == [] then acc else AddAll(Wrap(acc + vs[0]), vs[1..])
  }

  function MulAll(acc: Int, vs: seq<Int>): Int
    decreases |vs|
  {
    if vs == [] then acc else MulAll(Wrap(acc * vs[0]), vs[1..])
  }

  function MinAll(acc: Int, vs: seq<Int>): Int
    decreases |vs|
  {
    if vs == [] then acc else MinAll(if vs[0] < acc then vs[0] else acc, vs[1..])
  }

  function MaxAll(acc: Int, vs: seq<Int>): Int
    decreases |vs|
  {
    if vs == [] then acc else MaxAll(if vs[0] > acc then vs[0] else acc, vs[1..])
  }

  /* Reference definitions, in unbounded integers. */

  function Sum(vs: seq<int>): int {
    if vs == [] then 0 else vs[0] + Sum(vs[1..])
  }

  function Product(vs: seq<int>): int {
    if vs == [] then 1 else vs[0] * Product(vs[1..])
  }

  /** The ADD loop is the sum, wrapped once at the end. */
  lemma {:induction false} AddAllSum(acc: Int, vs: seq<Int>)
    ensures AddAll(acc, vs) == Wrap(acc + Sum(vs))
    decreases |vs|
  {
    if vs != [] {
      AddAllSum(Wrap(acc + vs[0]), vs[1..]);
      WrapAdd(acc + vs[0], Sum(vs[1..]));
    }
  }

  /** The MUL loop is the product, wrapped once at the end. */
  lemma {:induction false} MulAllProduct(acc: Int, vs: seq<Int>)
    ensures MulAll(acc, vs) == Wrap(acc * Product(vs))
    decreases |vs|
  {
    if vs != [] {
      var x, p := acc * vs[0], Product(vs[1..]);
      MulAllProduct(Wrap(x), vs[1..]);
      WrapMul(x, p);
      assert Product(vs) == vs[0] * p;
      Assoc(acc, vs[0], p);
    }
  }

  lemma Assoc(a: int, b: int, c: int)
    ensures a * b * c == a * (b * c)
  {
  }

  /** The MIN loop keeps the least of acc and the values. */
  lemma {:induction false} MinAllLeast(acc: Int, vs: seq<Int>)
    ensures MinAll(acc, vs) <= acc
    ensures forall i :: 0 <= i < |vs| ==> MinAll(acc, vs) <= vs[i]
    ensures MinAll(acc, vs) == acc || MinAll(acc, vs) in vs
    decreases |vs|
  {
    if vs != [] {
      var next := if vs[0] < acc then vs[0] else acc;
      MinAllLeast(next, vs[1..]);
      assert forall i :: 1 <= i < |vs| ==> vs[i] == vs[1..][i - 1];
    }
  }

  /** The MAX loop keeps the greatest of acc and the values. */
  lemma {:induction false} MaxAllGreatest(acc: Int, vs: seq<Int>)
    ensures MaxAll(acc, vs) >= acc
    ensures forall i :: 0 <= i < |vs| ==> MaxAll(acc, vs) >= vs[i]
    ensures MaxAll(acc, vs) == acc || MaxAll(acc, vs) in vs
    decreases |vs|
  {
    if vs != [] {
      var next := if vs[0] > acc then vs[0] else acc;
      MaxAllGreatest(next, vs[1..]);
      assert forall i :: 1 <= i < |vs| ==> vs[i] == vs[1..][i - 1];
    }
  }

  /** ADD is the sum of the sub-results, wrapped into int; with no
      sub-segments it is 0. */
  lemma EvalAdd(s: Seg)
    requires Valid(s) && s.typ == ADD
    ensures Eval(s) == Wrap(Sum(Evals(s.sub)))
    ensures s.sub == [] ==> Eval(s) == 0
  {
    AddAllSum(0, Evals(s.sub));
  }

  /** MUL is the product of the sub-results, wrapped into int; with no
      sub-segments it is 1. */
  lemma EvalMul(s: Seg)
    requires Valid(s) && s.typ == MUL
    ensures Eval(s) == Wrap(Product(Evals(s.sub)))
    ensures s.sub == [] ==> Eval(s) == 1
  {
    MulAllProduct(1, Evals(s.sub));
  }

  /** MIN is a least sub-result; with no sub-segments it is MaxInt. */
  lemma EvalMin(s: Seg)
    requires Valid(s) && s.typ == MIN
    ensures s.sub == [] ==> Eval(s) == MaxInt
    ensures s.sub != [] ==> Eval(s) in Evals(s.sub)
    ensures forall a :: a in s.sub ==> Eval(s) <= Eval(a)
  {
    var vs := Evals(s.sub);
    MinAllLeast(MaxInt, vs);
    forall a | a in s.sub ensures Eval(s) <= Eval(a) {
      var i :| 0 <= i < |s.sub| && s.sub[i] == a;
      assert Eval(s) <= vs[i];
    }
    if s.sub != [] && Eval(s) == MaxInt {
      assert Eval(s) <= vs[0];
    }
  }

  /** MAX is a greatest sub-result; with no sub-segments it is MinInt. */
  lemma EvalMax(s: Seg)
    requires Valid(s) && s.typ == MAX
    ensures s.sub == [] ==> Eval(s) == MinInt
    ensures s.sub != [] ==> Eval(s) in Evals(s.sub)
    ensures forall a :: a in s.sub ==> Eval(s) >= Eval(a)
  {
    var vs := Evals(s.sub);
    MaxAllGreatest(MinInt, vs);
    forall a | a in s.sub ensures Eval(s) >= Eval(a) {
      var i :| 0 <= i < |s.sub| && s.sub[i] == a;
      assert Eval(s) >= vs[i];
    }
    if s.sub != [] && Eval(s) == MinInt {
      assert Eval(s) >= vs[0];
    }
  }

  /** LIT is its stored value; GT, LT and EQ are 1 when the comparison of
      the first two sub-results holds and 0 when it fails; an unknown type
      is 0. */
  lemma EvalCompare(s: Seg)
    requires Valid(s)
    ensures s.typ == LIT ==> Eval(s) == s.val
    ensures s.typ == GT || s.typ == LT || s.typ == EQ ==> Eval(s) == 0 || Eval(s) == 1
    ensures s.typ == GT ==> (Eval(s) == 1 <==> Eval(s.sub[0]) > Eval(s.sub[1]))
    ensures s.typ == LT ==> (Eval(s) == 1 <==> Eval(s.sub[0]) < Eval(s.sub[1]))
    ensures s.typ == EQ ==> (Eval(s) == 1 <==> Eval(s.sub[0]) == Eval(s.sub[1]))
    ensures s.typ > EQ ==> Eval(s) == 0
  {
  }

  /* sum */

  /** The versions of the segments and of all their descendants. */
  function Versions(ss: seq<Seg>): nat {
    if ss == [] then 0 else ss[0].ver + Versions(ss[0].sub) + Versions(ss[1..])
  }

  /** sum: for each segment, its version and then, recursively, its
      sub-segments' sum. */
  method SumVersions(dgram: seq<Seg>) returns (n: nat)
    ensures n == Versions(dgram)
  {
    n := 0;
    var i := 0;
    while i < |dgram|
      invariant 0 <= i <= |dgram|
      invariant n + Versions(dgram[i..]) == Versions(dgram)
    {
      assert dgram[i..][1..] == dgram[i + 1..];
      var s := dgram[i];
      n := n + s.ver;
      var m := SumVersions(s.sub);
      n := n + m;
      i := i + 1;
    }
  }

  /** Every segment of the tree, each before its sub-segments. */
  function Flatten(ss: seq<Seg>): seq<Seg> {
    if ss == [] then [] else [ss[0]] + Flatten(ss[0].sub) + Flatten(ss[1..])
  }

  function VersionList(ss: seq<Seg>): nat {
    if ss == [] then 0 else ss[0].ver + VersionList(ss[1..])
  }

  lemma {:induction false} VersionListAppend(a: seq<Seg>, b: seq<Seg>)
    ensures VersionList(a + b) == VersionList(a) + VersionList(b)
    decreases |a|
  {
    if a != [] {
      VersionListAppend(a[1..], b);
      assert (a + b)[1..] == a[1..] + b;
    } else {
      assert a + b == b;
    }
  }

  /** sum adds one version per segment of the tree. */
  lemma {:induction false} VersionsFlat(ss: seq<Seg>)
    ensures Versions(ss) == VersionList(Flatten(ss))
  {
    if ss != [] {
      VersionsFlat(ss[0].sub);
      VersionsFlat(ss[1..]);
      VersionListAppend([ss[0]] + Flatten(ss[0].sub), Flatten(ss[1..]));
      VersionListAppend([ss[0]], Flatten(ss[0].sub));
      assert VersionList([ss[0]]) == ss[0].ver + VersionList([ss[0]][1..]);
      assert [ss[0]][1..] == [];
    }
  }

  /** sum over two datagrams is the sum of their sums. */
  lemma {:induction false} VersionsAppend(a: seq<Seg>, b: seq<Seg>)
    ensures Versions(a + b) == Versions(a) + Versions(b)
    decreases |a|
  {
    if a != [] {
      VersionsAppend(a[1..], b);
      assert (a + b)[0] == a[0];
      assert (a + b)[1..] == a[1..] + b;
    } else {
      assert a + b == b;
    }
  }
}
