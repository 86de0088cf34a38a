/** The bit tricks of log2 (2023/6/aoc6.go), on 64-bit words. */
module Bits {
  /** n with every bit below its highest set bit also set. */
  function Smear(n: bv64): bv64 {
    var a := n | (n >> 1);
    var b := a | (a >> 2);
    var c := b | (b >> 4);
    var d := c | (c >> 8);
    var e := d | (d >> 16);
    e | (e >> 32)
  }

  /** The highest set bit of n alone. */
  function Isolate(n: bv64): bv64 {
    Smear(n) - (Smear(n) >> 1)
  }

  /** x lies in [p, 2p) and holds every bit of the mask q; the masks used
      are runs of bits just below p. */
  predicate Spread(x: bv64, p: bv64, q: bv64) {
    p <= x && x - p < p && x & q == q
  }

  /** Each smearing step doubles the run of set bits below p. */
  lemma Step1(x: bv64, p: bv64)
    requires p != 0 && p & (p - 1) == 0 && Spread(x, p, 0)
    ensures Spread(x | (x >> 1), p, (p - 1) - ((p - 1) >> 1))
  {
  }

  lemma Step2(x: bv64, p: bv64)
    requires p != 0 && p & (p - 1) == 0 && Spread(x, p, (p - 1) - ((p - 1) >> 1))
    ensures Spread(x | (x >> 2), p, (p - 1) - ((p - 1) >> 3))
  {
  }

  lemma Step4(x: bv64, p: bv64)
    requires p != 0 && p & (p - 1) == 0 && Spread(x, p, (p - 1) - ((p - 1) >> 3))
    ensures Spread(x | (x >> 4), p, (p - 1) - ((p - 1) >> 7))
  {
  }

  lemma Step8(x: bv64, p: bv64)
    requires p != 0 && p & (p - 1) == 0 && Spread(x, p, (p - 1) - ((p - 1) >> 7))
    ensures Spread(x | (x >> 8), p, (p - 1) - ((p - 1) >> 15))
  {
  }

  lemma Step16(x: bv64, p: bv64)
    requires p != 0 && p & (p - 1) == 0 && Spread(x, p, (p - 1) - ((p - 1) >> 15))
    ensures Spread(x | (x >> 16), p, (p - 1) - ((p - 1) >> 31))
  {
  }

  lemma Step32(x: bv64, p: bv64)
    requires p != 0 && p & (p - 1) == 0 && Spread(x, p, (p - 1) - ((p - 1) >> 31))
    ensures Spread(x | (x >> 32), p, p - 1)
  {
  }

  /** For p the power of two with p <= n < 2p, smearing and subtracting
      the half leaves exactly p. */
  lemma Top(n: bv64, p: bv64)
    requires p != 0 && p & (p - 1) == 0 && p <= n && n - p < p
    ensures Isolate(n) == p
  {
    var a := n | (n >> 1);
    var b := a | (a >> 2);
    var c := b | (b >> 4);
    var d := c | (c >> 8);
    var e := d | (d >> 16);
    Step1(n, p);
    Step2(a, p);
    Step4(b, p);
    Step8(c, p);
    Step16(d, p);
    Step32(e, p);
    Full(Smear(n), p);
  }

  /** With every bit below p set, the value minus its half is p. */
  lemma Full(x: bv64, p: bv64)
    requires p != 0 && p & (p - 1) == 0 && Spread(x, p, p - 1)
    ensures x - (x >> 1) == p
  {
  }

  /** n >> k == 1 says 1 << k is the highest bit of n. */
  lemma Power(n: bv64, k: bv64)
    requires k < 64 && n >> k == 1
    ensures var p := 1 << k; p != 0 && p & (p - 1) == 0 && p <= n && n - p < p
  {
  }
}

/** Wait For It (2023/6/aoc6.go): a race of t milliseconds is won by holding
    the button x milliseconds when x * (t - x) beats the record d. solve
    counts the winning x from the roots of the quadratic, using an integer
    square root whose first bit comes from a de Bruijn log2. Count is the
    reference: the winning x counted one by one. */
module Races {
  import opened Bits

  const DeBruijn: bv64 := 0x07EDD5E59A4E28C2

  /** tab64: the exponent of a power of two, by the top six bits of its
      product with the de Bruijn constant. */
  function Tab64(i: bv64): bv64 {
    if i == 0 then 63
    else if i == 1 then 0
    else if i == 2 then 58
    else if i == 3 then 1
    else if i == 4 then 59
    else if i == 5 then 47
    else if i == 6 then 53
    else if i == 7 then 2
    else if i == 8 then 60
    else if i == 9 then 39
    else if i == 10 then 48
    else if i == 11 then 27
    else if i == 12 then 54
    else if i == 13 then 33
    else if i == 14 then 42
    else if i == 15 then 3
    else if i == 16 then 61
    else if i == 17 then 51
    else if i == 18 then 37
    else if i == 19 then 40
    else if i == 20 then 49
    else if i == 21 then 18
    else if i == 22 then 28
    else if i == 23 then 20
    else if i == 24 then 55
    else if i == 25 then 30
    else if i == 26 then 34
    else if i == 27 then 11
    else if i == 28 then 43
    else if i == 29 then 14
    else if i == 30 then 22
    else if i == 31 then 4
    else if i == 32 then 62
    else if i == 33 then 57
    else if i == 34 then 46
    else if i == 35 then 52
    else if i == 36 then 38
    else if i == 37 then 26
    else if i == 38 then 32
    else if i == 39 then 41
    else if i == 40 then 50
    else if i == 41 then 36
    else if i == 42 then 17
    else if i == 43 then 19
    else if i == 44 then 29
    else if i == 45 then 10
    else if i == 46 then 13
    else if i == 47 then 21
    else if i == 48 then 56
    else if i == 49 then 45
    else if i == 50 then 25
    else if i == 51 then 31
    else if i == 52 then 35
    else if i == 53 then 16
    else if i == 54 then 9
    else if i == 55 then 12
    else if i == 56 then 44
    else if i == 57 then 24
    else if i == 58 then 15
    else if i == 59 then 8
    else if i == 60 then 23
    else if i == 61 then 7
    else if i == 62 then 6
    else 5
  }

  /** The table slot of a power of two. */
  function Index(h: bv64): bv64 {
    (h * DeBruijn) >> 58
  }

  /** log2: smear n, isolate its highest bit, look the bit up. */
  function Log2(n: bv64): bv64 {
    Tab64(Index(Isolate(n)))
  }

  lemma Times(k: bv64)
    requires k < 64
    ensures Index(1 << k) == (DeBruijn << k) >> 58
  {
  }

  /** The table inverts the slot of every power of two, eight at a time. */
  lemma Table0(k: bv64)
    requires 0 <= k < 8
    ensures Tab64(Index(1 << k)) == k
  {
    Times(k);
    if k == 0 {} else if k == 1 {} else if k == 2 {} else if k == 3 {} else
    if k == 4 {} else if k == 5 {} else if k == 6 {} else {
      assert k == 7;
    }
  }

  lemma Table1(k: bv64)
    requires 8 <= k < 16
    ensures Tab64(Index(1 << k)) == k
  {
    Times(k);
    if k == 8 {} else if k == 9 {} else if k == 10 {} else if k == 11 {} else
    if k == 12 {} else if k == 13 {} else if k == 14 {} else {
      assert k == 15;
    }
  }

  lemma Table2(k: bv64)
    requires 16 <= k < 24
    ensures Tab64(Index(1 << k)) == k
  {
    Times(k);
    if k == 16 {} else if k == 17 {} else if k == 18 {} else if k == 19 {} else
    if k == 20 {} else if k == 21 {} else if k == 22 {} else {
      assert k == 23;
    }
  }

  lemma Table3(k: bv64)
    requires 24 <= k < 32
    ensures Tab64(Index(1 << k)) == k
  {
    Times(k);
    if k == 24 {} else if k == 25 {} else if k == 26 {} else if k == 27 {} else
    if k == 28 {} else if k == 29 {} else if k == 30 {} else {
      assert k == 31;
    }
  }

  lemma Table4(k: bv64)
    requires 32 <= k < 40
    ensures Tab64(Index(1 << k)) == k
  {
    Times(k);
    if k == 32 {} else if k == 33 {} else if k == 34 {} else if k == 35 {} else
    if k == 36 {} else if k == 37 {} else if k == 38 {} else {
      assert k == 39;
    }
  }

  lemma Table5(k: bv64)
    requires 40 <= k < 48
    ensures Tab64(Index(1 << k)) == k
  {
    Times(k);
    if k == 40 {} else if k == 41 {} else if k == 42 {} else if k == 43 {} else
    if k == 44 {} else if k == 45 {} else if k == 46 {} else {
      assert k == 47;
    }
  }

  lemma Table6(k: bv64)
    requires 48 <= k < 56
    ensures Tab64(Index(1 << k)) == k
  {
    Times(k);
    if k == 48 {} else if k == 49 {} else if k == 50 {} else if k == 51 {} else
    if k == 52 {} else if k == 53 {} else if k == 54 {} else {
      assert k == 55;
    }
  }

  lemma Table7(k: bv64)
    requires 56 <= k < 64
    ensures Tab64(Index(1 << k)) == k
  {
    Times(k);
    if k == 56 {} else if k == 57 {} else if k == 58 {} else if k == 59 {} else
    if k == 60 {} else if k == 61 {} else if k == 62 {} else {
      assert k == 63;
    }
  }

  /** log2 is the floor of the binary logarithm: the k with 2^k <= n <
      2^(k + 1), which is n >> k == 1. */
  lemma Log2Floor(n: bv64, k: bv64)
    requires k < 64 && n >> k == 1
    ensures Log2(n) == k
  {
    Power(n, k);
    Top(n, 1 << k);
    if k < 8 {
      Table0(k);
    }
    else if k < 16 {
      Table1(k);
    }
    else if k < 24 {
      Table2(k);
    }
    else if k < 32 {
      Table3(k);
    }
    else if k < 40 {
      Table4(k);
    }
    else if k < 48 {
      Table5(k);
    }
    else if k < 56 {
      Table6(k);
    } else {
      Table7(k);
    }
  }


  /** log2 of zero reads the first table entry. */
  lemma Log2Zero()
    ensures Log2(0) == 63
  {
  }

  /** uint64(x): Go's conversion of a 64-bit int keeps its bits, so a
      negative x reads as x + 2^64. */
  function Wrap(x: int): (r: nat)
    ensures r < 0x1_0000_0000_0000_0000
    ensures 0 <= x < 0x1_0000_0000_0000_0000 ==> r == x
  {
    x % 0x1_0000_0000_0000_0000
  }

  function Pow2(k: nat): (r: nat)
    ensures r >= 1
  {
    if k == 0 then 1 else 2 * Pow2(k - 1)
  }

  function Pow4(j: nat): (r: nat)
    ensures r >= 1
  {
    if j == 0 then 1 else 4 * Pow4(j - 1)
  }

  /** The floor of the binary logarithm on the integers: the exponent
      log2 computes on 64-bit words (Log2Floor). */
  function FloorLog(x: nat): (k: nat)
    requires x >= 1
    ensures Pow2(k) <= x < 2 * Pow2(k)
  {
    if x == 1 then 0 else 1 + FloorLog(x / 2)
  }

  /** The exponent log2 gives isqrt: 63 for zero (Log2Zero). */
  function StartLog(x: nat): nat {
    if x == 0 then 63 else FloorLog(x)
  }

  lemma {:induction false} Pow4Pow2(j: nat)
    ensures Pow4(j) == Pow2(2 * j)
  {
    if j > 0 {
      Pow4Pow2(j - 1);
    }
  }

  lemma {:induction false} Pow2Mono(a: nat, b: nat)
    requires a <= b
    ensures Pow2(a) <= Pow2(b)
    decreases b
  {
    if a < b {
      Pow2Mono(a, b - 1);
    }
  }

  /** The first bit isqrt tries is a power of four above a quarter of x. */
  lemma StartBit(x: nat)
    ensures x < 4 * Pow4(StartLog(x) / 2)
  {
    var j := StartLog(x) / 2;
    Pow4Pow2(j);
    if x > 0 {
      Pow2Mono(StartLog(x) + 1, 2 * j + 2);
    }
  }

  /** The state of isqrt at scale s: q is the root of x so far, rem the
      remainder x - q^2 s, below the gap to the next square. */
  ghost predicate Root(x: nat, q: nat, s: nat, rem: int) {
    rem == x - q * q * s && 0 <= rem < (2 * q + 1) * s
  }

  /** One digit of the root at bit p: with r = q * 4p, trying b = r | p =
      (4q + 1)p decides the next binary digit of q, and r >> 1 (then | p)
      is the new q at scale p. */
  lemma Digit(x: nat, q: nat, p: nat, rem: int, r: nat)
    requires p >= 1 && Root(x, q, 4 * p, rem) && r == q * (4 * p)
    ensures rem >= r + p ==> Root(x, 2 * q + 1, p, rem - (r + p)) && r / 2 + p == (2 * q + 1) * p
    ensures rem < r + p ==> Root(x, 2 * q, p, rem) && r / 2 == (2 * q) * p
  {
    assert r + p == (4 * q + 1) * p;
    assert r / 2 == (2 * q) * p;
    assert (2 * q + 1) * (2 * q + 1) * p == q * q * (4 * p) + (4 * q + 1) * p;
    assert (2 * q) * (2 * q) * p == q * q * (4 * p);
    assert (2 * q + 1) * (4 * p) == (4 * q + 1) * p + (2 * (2 * q + 1) + 1) * p;
    assert (2 * (2 * q) + 1) * p == (4 * q + 1) * p;
  }

  /** At scale 1 the root is exact. */
  lemma RootDone(x: nat, q: nat, rem: int)
    requires Root(x, q, 1, rem)
    ensures q * q <= x < (q + 1) * (q + 1)
  {
    assert (q + 1) * (q + 1) == q * q + (2 * q + 1);
  }

  /** A quarter of a power of four is the next power down; a quarter of 1
      is 0, which ends isqrt's loop. */
  lemma Quarter(j: nat)
    ensures j >= 1 ==> Pow4(j) / 4 == Pow4(j - 1)
    ensures j == 0 ==> Pow4(j) / 4 == 0
  {
  }

  /** isqrt: the digit-by-digit square root of uint64(x), from the bit
      log2 picks down to 1, two bits of x a digit. */
  method Isqrt(x: int) returns (r: nat)
    ensures r * r <= Wrap(x) < (r + 1) * (r + 1)
  {
    var x64 := Wrap(x);
    var rem := x64;
    var k := StartLog(x64) / 2;
    var p := Pow4(k);
    ghost var j: int := k;
    ghost var q: nat := 0;
    ghost var s: nat := 4 * p;
    r := 0;
    StartBit(x64);
    while p != 0
      invariant -1 <= j
      invariant j >= 0 ==> p == Pow4(j) && s == 4 * p
      invariant j == -1 ==> p == 0 && s == 1
      invariant r == q * s
      invariant Root(x64, q, s, rem)
      decreases p
    {
      Digit(x64, q, p, rem, r);
      Quarter(j);
      // r == q * 4p keeps bit p and the bits below it clear, so the
      // source's r | p here and r |= p below are these additions.
      var b := r + p;
      r := r / 2;
      if rem >= b {
        rem := rem - b;
        r := r + p;
        q := 2 * q + 1;
      } else {
        q := 2 * q;
      }
      s := p;
      p := p / 4;
      j := j - 1;
    }
    RootDone(x64, q, rem);
  }

  /** Holding the button x milliseconds of a t-millisecond race beats the
      record d. */
  predicate Beats(t: int, d: int, x: int) {
    x * (t - x) > d
  }

  /** The reference: how many x in [lo, hi) beat the record. */
  function Wins(t: int, d: int, lo: int, hi: int): (n: nat)
    ensures n <= if lo <= hi then hi - lo else 0
    decreases hi - lo
  {
    if lo >= hi then 0 else (if Beats(t, d, lo) then 1 else 0) + Wins(t, d, lo + 1, hi)
  }

  /** The winning ways to hold the button: x from 0 to t. */
  function Count(t: int, d: int): nat {
    Wins(t, d, 0, t + 1)
  }

  /** The quadratic behind solve: x(t - x) > d exactly when the distance of
      2x from t is below the root of the discriminant t^2 - 4d. */
  lemma BeatsSquare(t: int, d: int, x: int)
    ensures Beats(t, d, x) <==> (t - 2 * x) * (t - 2 * x) < t * t - 4 * d
  {
    assert (t - 2 * x) * (t - 2 * x) == t * t - 4 * (x * (t - x));
  }

  /** Go's integer division by 2, truncating toward zero. */
  function Half(a: int): (h: int)
    ensures a >= 0 ==> 0 <= a - 2 * h <= 1
    ensures a < 0 ==> -1 <= a - 2 * h <= 0
  {
    if a >= 0 then a / 2 else -((-a) / 2)
  }

  /** The bounds solve settles on once isqrt has returned delta: the
      symmetric pair around t/2, each moved inward by one when it does not
      beat the record. */
  function Bounds(t: int, d: int, delta: int): (b: (int, int))
    ensures b.0 + b.1 == t || b.0 + b.1 == t + 1 || b.0 + b.1 == t - 1
  {
    var x0 := Half(t - delta);
    var x1 := t - x0;
    (if x0 * (t - x0) <= d then x0 + 1 else x0, if x1 * (t - x1) <= d then x1 - 1 else x1)
  }

  /** solve's answer from delta: the length of the interval of bounds. */
  function SolveFrom(t: int, d: int, delta: int): int {
    Bounds(t, d, delta).1 - Bounds(t, d, delta).0 + 1
  }

  lemma {:induction false} WinsSplit(t: int, d: int, lo: int, mid: int, hi: int)
    requires lo <= mid <= hi
    ensures Wins(t, d, lo, hi) == Wins(t, d, lo, mid) + Wins(t, d, mid, hi)
    decreases mid - lo
  {
    if lo < mid {
      WinsSplit(t, d, lo + 1, mid, hi);
    }
  }

  lemma {:induction false} WinsAll(t: int, d: int, lo: int, hi: int)
    requires lo <= hi && forall x :: lo <= x < hi ==> Beats(t, d, x)
    ensures Wins(t, d, lo, hi) == hi - lo
    decreases hi - lo
  {
    if lo < hi {
      WinsAll(t, d, lo + 1, hi);
    }
  }

  lemma {:induction false} WinsNone(t: int, d: int, lo: int, hi: int)
    requires forall x :: lo <= x < hi ==> !Beats(t, d, x)
    ensures Wins(t, d, lo, hi) == 0
    decreases hi - lo
  {
    if lo < hi {
      WinsNone(t, d, lo + 1, hi);
    }
  }

  lemma SquareMono(a: int, b: int)
    requires 0 <= a <= b
    ensures a * a <= b * b
  {
    assert a * a <= a * b <= b * b;
  }

  /** With delta the root of D = t^2 - 4d >= 1 and m0 = t - 2 x0: the x
      strictly between x0 and t - x0 beat the record, those outside do not,
      and the two bounds beat it together or not at all. */
  lemma Between(t: int, d: int, delta: nat, x0: int, x: int)
    requires delta * delta <= t * t - 4 * d < (delta + 1) * (delta + 1)
    requires delta >= 1 && x0 == Half(t - delta) && 0 <= t - delta
    ensures x0 < x < t - x0 ==> Beats(t, d, x)
    ensures x < x0 || t - x0 < x ==> !Beats(t, d, x)
    ensures Beats(t, d, x0) <==> Beats(t, d, t - x0)
  {
    var m0 := t - 2 * x0;
    var m := if t - 2 * x >= 0 then t - 2 * x else 2 * x - t;
    assert delta <= m0 <= delta + 1;
    assert m * m == (t - 2 * x) * (t - 2 * x);
    BeatsSquare(t, d, x);
    if x0 < x < t - x0 {
      assert m <= m0 - 2 <= delta - 1;
      SquareMono(m, delta - 1);
      assert (delta - 1) * (delta - 1) < delta * delta by {
        assert (delta - 1) * (delta - 1) == delta * delta - 2 * delta + 1;
      }
    }
    if x < x0 || t - x0 < x {
      assert m >= delta + 1;
      SquareMono(delta + 1, m);
    }
    assert x0 * (t - x0) == (t - x0) * (t - (t - x0));
  }

  /** A root of t^2 - 4d with d >= 0 is at most t. */
  lemma RootBelow(t: nat, d: nat, delta: nat)
    requires delta * delta <= t * t - 4 * d
    ensures delta <= t
  {
    assert t * t < (t + 1) * (t + 1);
    if delta > t {
      SquareMono(t + 1, delta);
    }
  }

  /** A count of 0..t that wins strictly inside (x0, x1), loses outside
      [x0, x1], and wins at both ends or at neither. */
  lemma CountParts(t: nat, d: int, x0: nat, x1: nat)
    requires x0 < x1 <= t && (Beats(t, d, x0) <==> Beats(t, d, x1))
    requires forall x :: x0 < x < x1 ==> Beats(t, d, x)
    requires forall x :: 0 <= x < x0 || x1 < x <= t ==> !Beats(t, d, x)
    ensures Count(t, d) == x1 - x0 - 1 + (if Beats(t, d, x0) then 2 else 0)
  {
    WinsSplit(t, d, 0, x0, t + 1);
    WinsSplit(t, d, x0, x0 + 1, t + 1);
    WinsSplit(t, d, x0 + 1, x1, t + 1);
    WinsSplit(t, d, x1, x1 + 1, t + 1);
    WinsNone(t, d, 0, x0);
    WinsAll(t, d, x0 + 1, x1);
    WinsNone(t, d, x1 + 1, t + 1);
  }

  /** solve counts the winners whenever the discriminant is positive and
      delta is its integer square root. */
  lemma SolveCounts(t: nat, d: nat, delta: nat)
    requires 1 <= t * t - 4 * d && delta * delta <= t * t - 4 * d < (delta + 1) * (delta + 1)
    ensures SolveFrom(t, d, delta) == Count(t, d)
  {
    RootBelow(t, d, delta);
    var x0 := Half(t - delta);
    var x1 := t - x0;
    forall x | x0 < x < x1 ensures Beats(t, d, x) {
      Between(t, d, delta, x0, x);
    }
    forall x | 0 <= x < x0 || x1 < x <= t ensures !Beats(t, d, x) {
      Between(t, d, delta, x0, x);
    }
    Between(t, d, delta, x0, x0);
    CountParts(t, d, x0, x1);
  }

  lemma Loses(t: int, d: int, x: int)
    requires t * t - 4 * d <= 0
    ensures !Beats(t, d, x)
  {
    BeatsSquare(t, d, x);
    var m := t - 2 * x;
    assert m * m == (-m) * (-m);
    SquareMono(0, if m >= 0 then m else -m);
  }

  /** With no positive discriminant nobody beats the record. */
  lemma NoWins(t: nat, d: nat)
    requires t * t - 4 * d <= 0
    ensures Count(t, d) == 0
  {
    forall x | 0 <= x <= t ensures !Beats(t, d, x) {
      Loses(t, d, x);
    }
    WinsNone(t, d, 0, t + 1);
  }

  /** With a positive discriminant and its root, the adjusted bounds are
      the first and the last winning x: their outer neighbours lose, and
      when any x wins both bounds do. Otherwise (t^2 - 4d = 1) they cross
      by one. */
  lemma BoundsTight(t: nat, d: nat, delta: nat)
    requires 1 <= t * t - 4 * d && delta * delta <= t * t - 4 * d < (delta + 1) * (delta + 1)
    ensures var (lo, hi) := Bounds(t, d, delta);
      0 <= lo <= hi + 1 <= t + 1 && !Beats(t, d, lo - 1) && !Beats(t, d, hi + 1) &&
      (lo <= hi ==> Beats(t, d, lo) && Beats(t, d, hi))
  {
    RootBelow(t, d, delta);
    var x0 := Half(t - delta);
    var x1 := t - x0;
    assert x0 < x1;
    Between(t, d, delta, x0, x0);
    Between(t, d, delta, x0, x0 - 1);
    Between(t, d, delta, x0, x0 + 1);
    Between(t, d, delta, x0, x1 - 1);
    Between(t, d, delta, x0, x1 + 1);
  }

  /** With a zero discriminant t is even and t/2 only ties the record: the
      bounds cross and solve answers -1, while no x wins. */
  lemma Tie(t: nat, d: nat)
    requires t * t == 4 * d
    ensures SolveFrom(t, d, 0) == -1 && Count(t, d) == 0
  {
    var k, e := t / 2, t % 2;
    assert t * t == 4 * (k * k + k * e) + e * e;
    assert e == 0;
    assert k * (t - k) == d;
    NoWins(t, d);
  }

  /** The square root of zero is zero. */
  lemma RootZero(r: nat)
    requires r * r <= 0
    ensures r == 0
  {
  }

  /** solve as written: isqrt of t^2 - 4d, then the bounds. It counts the
      winners for a positive discriminant within uint64, and answers -1
      when the best hold only ties the record. */
  method SolveAsWritten(t: nat, d: nat) returns (n: int)
    ensures 1 <= t * t - 4 * d < 0x1_0000_0000_0000_0000 ==> n == Count(t, d)
    ensures t * t - 4 * d == 0 ==> n == -1 && Count(t, d) == 0
  {
    var delta := Isqrt(t * t - 4 * d);
    n := SolveFrom(t, d, delta);
    if 1 <= t * t - 4 * d < 0x1_0000_0000_0000_0000 {
      SolveCounts(t, d, delta);
    }
    if t * t - 4 * d == 0 {
      RootZero(delta);
      Tie(t, d);
    }
  }

  /** The record can only be tied (t = 2, d = 1): the bounds cross and
      solve answers -1 winning ways. */
  lemma TieShort()
    ensures SolveFrom(2, 1, 0) == -1 && Count(2, 1) == 0
  {
    Tie(2, 1);
  }

  /** The record cannot be reached (t = 1, d = 1): uint64 turns t^2 - 4d =
      -3 into 2^64 - 3, whose root 2^32 - 1 makes solve answer 4294967294. */
  lemma WrapShort()
    ensures var r := 4294967295;
      r * r <= Wrap(1 * 1 - 4 * 1) < (r + 1) * (r + 1) &&
      SolveFrom(1, 1, r) == 4294967294 && Count(1, 1) == 0
  {
  }

  /** solve with the record out of reach or only tied answering 0: the
      winners are counted for every discriminant within uint64. */
  method Solve(t: nat, d: nat) returns (n: int)
    ensures t * t - 4 * d < 0x1_0000_0000_0000_0000 ==> n == Count(t, d)
  {
    if t * t - 4 * d <= 0 {
      NoWins(t, d);
      return 0;
    }
    var delta := Isqrt(t * t - 4 * d);
    n := SolveFrom(t, d, delta);
    if t * t - 4 * d < 0x1_0000_0000_0000_0000 {
      SolveCounts(t, d, delta);
    }
  }
}
