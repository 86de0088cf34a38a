/** Lanternfish (2021/6/aoc6.go): the population is kept as nine counters,
    one per timer value, and a day rotates them. The reference below follows
    every fish on its own; a census of the fish turns one into the other. */
module Lanternfish {
  /** Timers run from 0 to 8: a newborn starts at 8, a parent restarts at 6. */
  const Slots: nat := 9

  /** incube: every counter moves down one slot; the fish at 0 restart at 6
      and as many newborns appear at 8. */
  function Incube(a: seq<nat>): (r: seq<nat>)
    requires |a| == Slots
    ensures |r| == Slots
    ensures r[8] == a[0] && r[6] == a[7] + a[0]
    ensures forall i :: 0 <= i < 8 && i != 6 ==> r[i] == a[i + 1]
  {
    a[1..7] + [a[7] + a[0], a[8], a[0]]
  }

  function Sum(p: seq<nat>): nat {
    if p == [] then 0 else Sum(p[..|p| - 1]) + p[|p| - 1]
  }

  /** popcnt: the total of the counters, summed front to back. */
  method Popcnt(p: seq<nat>) returns (n: nat)
    ensures n == Sum(p)
  {
    n := 0;
    for i := 0 to |p|
      invariant n == Sum(p[..i])
    {
      assert p[..i + 1][..i] == p[..i];
      n := n + p[i];
    }
    assert p[..|p|] == p;
  }

  lemma {:induction false} SumAppend(a: seq<nat>, b: seq<nat>)
    ensures Sum(a + b) == Sum(a) + Sum(b)
    decreases |b|
  {
    if b == [] {
      assert a + b == a;
    } else {
      var c := b[..|b| - 1];
      assert (a + b)[..|a + b| - 1] == a + c;
      SumAppend(a, c);
    }
  }

  /** A day adds exactly the fish whose timer was at 0. */
  lemma PopcntIncube(a: seq<nat>)
    requires |a| == Slots
    ensures Sum(Incube(a)) == Sum(a) + a[0]
  {
    SumIncube(a, Incube(a));
  }

  lemma SumIncube(a: seq<nat>, r: seq<nat>)
    requires |a| == Slots && r == a[1..7] + [a[7] + a[0], a[8], a[0]]
    ensures Sum(r) == Sum(a) + a[0]
  {
    var m, x0, x7, x8 := a[1..7], a[0], a[7], a[8];
    var a7, a8 := a[..7], a[..8];
    assert a == a8 + [x8];
    SumSnoc(a8, x8);
    assert a8 == a7 + [x7];
    SumSnoc(a7, x7);
    assert a7 == [x0] + m;
    Rotate(m, x0, x7, x8);
  }

  /** Moving the front counter x0 to the back and adding it once more to
      x7 adds x0 to the sum. */
  lemma Rotate(m: seq<nat>, x0: nat, x7: nat, x8: nat)
    ensures Sum(m + [x7 + x0, x8, x0]) == Sum([x0] + m) + x7 + x8 + x0
  {
    assert m + [x7 + x0, x8, x0] == m + [x7 + x0] + [x8] + [x0];
    var r1, r2 := m + [x7 + x0], m + [x7 + x0] + [x8];
    SumSnoc(r2, x0);
    SumSnoc(r1, x8);
    SumSnoc(m, x7 + x0);
    SumAppend([x0], m);
    SumSnoc([], x0);
    assert [] + [x0] == [x0];
  }

  /** Adding a counter at the back adds its value. */
  lemma SumSnoc(p: seq<nat>, x: nat)
    ensures Sum(p + [x]) == Sum(p) + x
  {
    assert (p + [x])[..|p|] == p;
  }

  /** The reference: one timer per fish. */
  function Tick(t: nat): (s: seq<nat>) {
    if t == 0 then [6, 8] else [t - 1]
  }

  function Day(f: seq<nat>): seq<nat> {
    if f == [] then [] else Day(f[..|f| - 1]) + Tick(f[|f| - 1])
  }

  predicate Timers(f: seq<nat>) {
    forall i :: 0 <= i < |f| ==> f[i] < Slots
  }

  function Count(f: seq<nat>, k: nat): nat {
    if f == [] then 0 else Count(f[..|f| - 1], k) + (if f[|f| - 1] == k then 1 else 0)
  }

  /** The counters a population of fish is kept as. */
  function Census(f: seq<nat>): (c: seq<nat>)
    ensures |c| == Slots
  {
    seq(Slots, k requires 0 <= k => Count(f, k))
  }

  lemma {:induction false} CountAppend(a: seq<nat>, b: seq<nat>, k: nat)
    ensures Count(a + b, k) == Count(a, k) + Count(b, k)
    decreases |b|
  {
    if b == [] {
      assert a + b == a;
    } else {
      var c := b[..|b| - 1];
      assert (a + b)[..|a + b| - 1] == a + c;
      CountAppend(a, c, k);
    }
  }

  lemma {:induction false} DayTimers(f: seq<nat>)
    requires Timers(f)
    ensures Timers(Day(f)) && |Day(f)| == |f| + Count(f, 0)
    decreases |f|
  {
    if f != [] {
      DayTimers(f[..|f| - 1]);
    }
  }

  /** How many fish sit at timer k after a day, counted fish by fish. */
  lemma {:induction false} CountDay(f: seq<nat>, k: nat)
    requires Timers(f) && k < Slots
    ensures Count(Day(f), k) ==
      if k == 8 then Count(f, 0)
      else if k == 6 then Count(f, 7) + Count(f, 0)
      else Count(f, k + 1)
    decreases |f|
  {
    if f != [] {
      var g := f[..|f| - 1];
      CountDay(g, k);
      CountAppend(Day(g), Tick(f[|f| - 1]), k);
      CountTick(f[|f| - 1], k);
    }
  }

  lemma CountTick(t: nat, k: nat)
    ensures Count(Tick(t), k) ==
      (if k == 8 || k == 6 then (if t == 0 then 1 else 0) else 0) + (if t == k + 1 then 1 else 0)
  {
    var s := Tick(t);
    if t == 0 {
      assert s[..1] == [6] && [6][..0] == [];
    } else {
      assert s[..0] == [];
    }
  }

  /** incube does to the counters what a day does to the fish. */
  lemma DayCensus(f: seq<nat>)
    requires Timers(f)
    ensures Census(Day(f)) == Incube(Census(f))
  {
    forall k | 0 <= k < Slots
      ensures Census(Day(f))[k] == Incube(Census(f))[k]
    {
      CountDay(f, k);
    }
  }

  lemma {:induction false} SumZero(p: seq<nat>)
    requires forall i :: 0 <= i < |p| ==> p[i] == 0
    ensures Sum(p) == 0
    decreases |p|
  {
    if p != [] {
      SumZero(p[..|p| - 1]);
    }
  }

  /** The counters of a population of valid timers add up to its size. */
  lemma {:induction false} CensusSum(f: seq<nat>)
    requires Timers(f)
    ensures Sum(Census(f)) == |f|
    decreases |f|
  {
    if f == [] {
      SumZero(Census(f));
    } else {
      var g := f[..|f| - 1];
      var t := f[|f| - 1];
      CensusSum(g);
      var c, d := Census(g), Census(f);
      assert d == c[..t] + [c[t] + 1] + c[t + 1..] by {
        forall k | 0 <= k < Slots
          ensures d[k] == (c[..t] + [c[t] + 1] + c[t + 1..])[k]
        {
        }
      }
      assert c == c[..t] + [c[t]] + c[t + 1..];
      SumAppend(c[..t] + [c[t] + 1], c[t + 1..]);
      SumAppend(c[..t], [c[t] + 1]);
      SumAppend(c[..t] + [c[t]], c[t + 1..]);
      SumAppend(c[..t], [c[t]]);
    }
  }

  function Days(f: seq<nat>, n: nat): seq<nat>
    decreases n
  {
    if n == 0 then f else Days(Day(f), n - 1)
  }

  function IncubeN(a: seq<nat>, n: nat): (r: seq<nat>)
    requires |a| == Slots
    ensures |r| == Slots
    decreases n
  {
    if n == 0 then a else IncubeN(Incube(a), n - 1)
  }

  /** After n days of incube, popcnt of the census is the number of fish
      the reference simulation holds. */
  lemma {:induction false} Population(f: seq<nat>, n: nat)
    requires Timers(f)
    ensures Sum(IncubeN(Census(f), n)) == |Days(f, n)|
    decreases n
  {
    if n == 0 {
      CensusSum(f);
    } else {
      DayCensus(f);
      DayTimers(f);
      Population(Day(f), n - 1);
    }
  }
}
