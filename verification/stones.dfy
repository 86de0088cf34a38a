/** Plutonian Pebbles (2024/11/aoc11.go). Every blink rewrites each stone by
    the first rule that applies: 0 becomes 1, a number with an even count
    of decimal digits splits into its two halves, and any other number is
    multiplied by 2024. Stones never interact, so the Counter keeps only
    how many stones carry each number; its map is modelled as a multiset
    of stones, a key's count being the multiplicity and a missing key
    counting 0 as Go's map does. */
module Stones {
  import opened Decimal

  /** The number of digits strconv.Itoa writes for a positive stone. */
  function Width(n: nat): nat {
    |Digits(n)|
  }

  /** The width is pinned by the powers of ten around n. */
  lemma WidthBounds(n: nat)
    requires n > 0
    ensures Width(n) >= 1 && Pow10(Width(n) - 1) <= n < Pow10(Width(n))
  {
  }

  /** Conversely, bounds by powers of ten decide the width. */
  lemma WidthUnique(n: nat, w: nat)
    requires w >= 1 && Pow10(w - 1) <= n < Pow10(w)
    ensures Width(n) == w
  {
    WidthBounds(n);
    Bracket(Width(n), w, n);
  }

  /** Two powers-of-ten brackets around the same number are the same. */
  lemma Bracket(v: nat, w: nat, n: nat)
    requires v >= 1 && Pow10(v - 1) <= n < Pow10(v)
    requires w >= 1 && Pow10(w - 1) <= n < Pow10(w)
    ensures v == w
  {
    if v < w {
      Pow10Grows(v, w - 1);
    } else if v > w {
      Pow10Grows(w, v - 1);
    }
  }

  /** Reading a concatenation: the front digits shifted past the back ones. */
  lemma {:induction false} AtoiAppend(a: string, b: string)
    requires AllDigits(a) && AllDigits(b)
    ensures AllDigits(a + b) && Atoi(a + b) == Atoi(a) * Pow10(|b|) + Atoi(b)
    decreases |b|
  {
    if |b| > 0 {
      var k := |b| - 1;
      var ab := a + b;
      assert ab[..|ab| - 1] == a + b[..k] && ab[|ab| - 1] == b[k];
      AtoiAppend(a, b[..k]);
      AtoiLast(ab);
      AtoiLast(b);
      Shift(Atoi(a), Pow10(k));
    } else {
      assert a + b == a;
    }
  }

  lemma AtoiLast(s: string)
    requires AllDigits(s) && |s| > 0
    ensures Atoi(s) == 10 * Atoi(s[..|s| - 1]) + DigitValue(s[|s| - 1])
  {
  }

  lemma Shift(x: int, p: int)
    ensures 10 * (x * p) == x * (10 * p)
  {
  }

  /** blink: the stones one stone becomes. */
  function Blink(n: nat): (r: seq<nat>)
    ensures 1 <= |r| <= 2
    ensures n == 0 ==> r == [1]
  {
    var word := Digits(n);
    if n == 0 then [1]
    else if |word| > 1 && |word| % 2 == 0 then
      var m := |word| / 2;
      [Atoi(word[..m]), Atoi(word[m..])]
    else [2024 * n]
  }

  /** A positive stone of even width splits into its front and back
      halves: the front half shifted by m digits plus the back half gives
      the stone back, and the front half has no leading zero. */
  lemma BlinkHalves(n: nat)
    requires n > 0 && Width(n) % 2 == 0
    ensures var m := Width(n) / 2;
      |Blink(n)| == 2 && Blink(n)[0] * Pow10(m) + Blink(n)[1] == n
      && Pow10(m - 1) <= Blink(n)[0] && Blink(n)[1] < Pow10(m)
  {
    var word := Digits(n);
    Halves(word, |word| / 2);
  }

  /** Any other positive stone is multiplied by 2024. */
  lemma BlinkTimes(n: nat)
    requires n > 0 && Width(n) % 2 == 1
    ensures Blink(n) == [2024 * n]
  {
  }

  /** The two halves of a positive stone's digits recombine to the stone,
      and the front half has no leading zero. */
  lemma Halves(word: string, m: nat)
    requires AllDigits(word) && |word| > 0 && word[0] != '0' && 0 < m < |word|
    ensures AllDigits(word[..m]) && AllDigits(word[m..])
    ensures Atoi(word[..m]) * Pow10(|word| - m) + Atoi(word[m..]) == Atoi(word)
    ensures Pow10(m - 1) <= Atoi(word[..m]) && Atoi(word[m..]) < Pow10(|word| - m)
  {
    assert word == word[..m] + word[m..];
    AtoiAppend(word[..m], word[m..]);
    DigitsAtoi(word[..m]);
  }

  /** A split is decided by the stone's size alone: exactly the numbers
      between 10^(2m-1) and 10^(2m) split, at 10^m. */
  lemma BlinkSplits(n: nat, m: nat)
    requires m >= 1 && Pow10(2 * m - 1) <= n < Pow10(2 * m)
    ensures |Blink(n)| == 2 && Blink(n)[0] * Pow10(m) + Blink(n)[1] == n
    ensures Blink(n)[1] < Pow10(m)
  {
    WidthUnique(n, 2 * m);
    BlinkHalves(n);
  }

  /** The stones after every stone of c, in no order, is replaced by what
      f makes of it; MemBlink is Spread(Blink, c). */
  ghost function Spread(f: nat -> seq<nat>, c: multiset<nat>): multiset<nat>
    decreases |c|
  {
    if |c| == 0 then multiset{}
    else
      var n :| n in c;
      multiset(f(n)) + Spread(f, c - multiset{n})
  }

  /** Spread does not depend on which stone is taken first. */
  lemma {:induction false} SpreadAny(f: nat -> seq<nat>, c: multiset<nat>, y: nat)
    requires y in c
    ensures Spread(f, c) == multiset(f(y)) + Spread(f, c - multiset{y})
    decreases |c|
  {
    var x :| x in c && Spread(f, c) == multiset(f(x)) + Spread(f, c - multiset{x});
    if x != y {
      var cx, cy := c - multiset{x}, c - multiset{y};
      assert y in cx && x in cy;
      SpreadAny(f, cx, y);
      SpreadAny(f, cy, x);
      TakeTwo(c, x, y);
      Regroup(multiset(f(x)), multiset(f(y)), Spread(f, cx - multiset{y}));
    }
  }

  lemma TakeTwo(c: multiset<nat>, x: nat, y: nat)
    ensures c - multiset{x} - multiset{y} == c - multiset{y} - multiset{x}
  {
  }

  lemma Regroup(a: multiset<nat>, b: multiset<nat>, r: multiset<nat>)
    ensures a + (b + r) == b + (a + r)
  {
  }

  /** The line after each stone is replaced by what f makes of it:
      Map(Blink, s) is the stone line after one blink. */
  function Map(f: nat -> seq<nat>, s: seq<nat>): seq<nat> {
    if s == [] then [] else Map(f, s[..|s| - 1]) + f(s[|s| - 1])
  }

  /** The line after t rounds of f. */
  function Maps(f: nat -> seq<nat>, s: seq<nat>, t: nat): seq<nat>
    decreases t
  {
    if t == 0 then s else Maps(f, Map(f, s), t - 1)
  }

  /** Counting then spreading is mapping the line then counting. */
  lemma {:induction false} SpreadMap(f: nat -> seq<nat>, s: seq<nat>)
    ensures Spread(f, multiset(s)) == multiset(Map(f, s))
    decreases |s|
  {
    if s != [] {
      var k := |s| - 1;
      assert s == s[..k] + [s[k]];
      assert multiset(s) - multiset{s[k]} == multiset(s[..k]);
      SpreadAny(f, multiset(s), s[k]);
      SpreadMap(f, s[..k]);
    }
  }

  /** k stones numbered x. */
  function Copies(x: nat, k: nat): (r: multiset<nat>)
    ensures |r| == k && r[x] == k && forall y :: y != x ==> r[y] == 0
  {
    multiset{}[x := k]
  }

  /** Every stone of bs, k times. */
  function Scaled(bs: seq<nat>, k: nat): multiset<nat>
  {
    if bs == [] then multiset{} else Scaled(bs[..|bs| - 1], k) + Copies(bs[|bs| - 1], k)
  }

  lemma {:induction false} ScaledMore(bs: seq<nat>, k: nat)
    requires k >= 1
    ensures Scaled(bs, k) == multiset(bs) + Scaled(bs, k - 1)
    decreases |bs|
  {
    if bs != [] {
      var j := |bs| - 1;
      ScaledMore(bs[..j], k);
      assert bs == bs[..j] + [bs[j]];
      assert Copies(bs[j], k) == multiset{bs[j]} + Copies(bs[j], k - 1);
    }
  }

  lemma {:induction false} ScaledNone(bs: seq<nat>)
    ensures Scaled(bs, 0) == multiset{}
    decreases |bs|
  {
    if bs != [] {
      ScaledNone(bs[..|bs| - 1]);
    }
  }

  lemma Drained(c: multiset<nat>, n: nat)
    requires n in c
    ensures (c - multiset{n})[n := 0] == c[n := 0]
  {
  }

  lemma Regroup2(a: multiset<nat>, b: multiset<nat>, r: multiset<nat>)
    ensures a + (b + r) == (a + b) + r
  {
  }

  lemma Regroup3(x: multiset<nat>, a: multiset<nat>, y: multiset<nat>, b: multiset<nat>,
                 r: multiset<nat>, z: multiset<nat>)
    requires x == a + y && y == b + r && z == a + b
    ensures x == z + r
  {
  }

  /** The k stones numbered n are replaced together: MemBlink's per-key
      step. */
  lemma {:induction false} SpreadKey(f: nat -> seq<nat>, c: multiset<nat>, n: nat, k: nat)
    requires c[n] == k
    ensures Spread(f, c) == Scaled(f(n), k) + Spread(f, c[n := 0])
    decreases k
  {
    if k == 0 {
      assert c[n := 0] == c;
      ScaledNone(f(n));
    } else {
      var d := c - multiset{n};
      SpreadAny(f, c, n);
      Drained(c, n);
      SpreadKey(f, d, n, k - 1);
      ScaledMore(f(n), k);
      var a, y, b, r := multiset(f(n)), Spread(f, d), Scaled(f(n), k - 1), Spread(f, c[n := 0]);
      Regroup3(Spread(f, c), a, y, b, r, Scaled(f(n), k));
    }
  }

  /** Add: the key's count grows by value, every other count stays. */
  function Add(c: multiset<nat>, key: nat, value: nat): (r: multiset<nat>)
    ensures r == c + Copies(key, value)
    ensures |r| == |c| + value
  {
    c[key := c[key] + value]
  }

  /** Sum: the counts added up over the keys in any order, which is the
      number of stones counted. */
  method Sum(c: multiset<nat>) returns (sum: nat)
    ensures sum == |c|
  {
    sum := 0;
    var rest := c;
    while rest != multiset{}
      invariant sum + |rest| == |c|
      decreases |rest|
    {
      var n :| n in rest;
      sum := sum + rest[n];
      rest := rest[n := 0];
    }
  }

  lemma {:induction false} ScaledSize(bs: seq<nat>, k: nat)
    ensures |Scaled(bs, k)| == k * |bs|
    decreases |bs|
  {
    if bs != [] {
      var j := |bs| - 1;
      ScaledSize(bs[..j], k);
      assert |Scaled(bs, k)| == |Scaled(bs[..j], k)| + k;
      OneMore(k, j);
    }
  }

  lemma OneMore(k: int, j: int)
    ensures k * j + k == k * (j + 1)
  {
  }

  /** Sum after MemBlink is the sum over the keys of count times the
      number of stones the key blinks into: key n contributes c[n] *
      |Blink(n)| and the rest of the counter the remainder. */
  lemma BlinkSum(c: multiset<nat>, n: nat)
    ensures |Spread(Blink, c)| == c[n] * |Blink(n)| + |Spread(Blink, c[n := 0])|
  {
    SpreadKey(Blink, c, n, c[n]);
    ScaledSize(Blink(n), c[n]);
  }

  /** MemBlink's inner loop: each stone of bs is added count times. */
  method AddAll(c: multiset<nat>, bs: seq<nat>, count: nat) returns (next: multiset<nat>)
    ensures next == c + Scaled(bs, count)
  {
    next := c;
    for i := 0 to |bs|
      invariant next == c + Scaled(bs[..i], count)
    {
      assert bs[..i + 1][..i] == bs[..i];
      next := Add(next, bs[i], count);
    }
    assert bs[..|bs|] == bs;
  }

  /** MemBlink: for every key, in any order, each stone of its blink is
      added count times to a fresh counter. */
  method MemBlink(c: multiset<nat>) returns (next: multiset<nat>)
    ensures next == Spread(Blink, c)
  {
    next := multiset{};
    var rest := c;
    while rest != multiset{}
      invariant next + Spread(Blink, rest) == Spread(Blink, c)
      decreases |rest|
    {
      var n :| n in rest;
      var count := rest[n];
      var bs := Blink(n);
      SpreadKey(Blink, rest, n, count);
      Regroup2(next, Scaled(bs, count), Spread(Blink, rest[n := 0]));
      next := AddAll(next, bs, count);
      rest := rest[n := 0];
    }
  }

  /** Reading the input: every number adds 1 to its key. */
  method Count(stones: seq<nat>) returns (c: multiset<nat>)
    ensures c == multiset(stones)
  {
    c := multiset{};
    for i := 0 to |stones|
      invariant c == multiset(stones[..i])
    {
      assert stones[..i + 1] == stones[..i] + [stones[i]];
      c := Add(c, stones[i], 1);
    }
    assert stones[..|stones|] == stones;
  }

  /** The counter after t rounds of f. */
  ghost function Spreads(f: nat -> seq<nat>, c: multiset<nat>, t: nat): multiset<nat>
    decreases t
  {
    if t == 0 then c else Spreads(f, Spread(f, c), t - 1)
  }

  /** Counting then spreading t times is mapping the line t times then
      counting. */
  lemma {:induction false} SpreadsMaps(f: nat -> seq<nat>, s: seq<nat>, t: nat)
    ensures Spreads(f, multiset(s), t) == multiset(Maps(f, s, t))
    decreases t
  {
    if t > 0 {
      SpreadMap(f, s);
      SpreadsMaps(f, Map(f, s), t - 1);
    }
  }

  /** main: the stones counted after 25 and after 75 blinks, which are the
      lengths of the stone line after that many blinks. */
  method Run(stones: seq<nat>) returns (sum1: nat, sum2: nat)
    ensures sum1 == |Maps(Blink, stones, 25)| && sum2 == |Maps(Blink, stones, 75)|
  {
    var nums := Count(stones);
    for i := 0 to 25
      invariant nums == Spreads(Blink, multiset(stones), i)
    {
      Later(Blink, multiset(stones), i);
      nums := MemBlink(nums);
    }
    sum1 := Sum(nums);
    for i := 25 to 75
      invariant nums == Spreads(Blink, multiset(stones), i)
    {
      Later(Blink, multiset(stones), i);
      nums := MemBlink(nums);
    }
    sum2 := Sum(nums);
    SpreadsMaps(Blink, stones, 25);
    SpreadsMaps(Blink, stones, 75);
  }

  lemma {:induction false} Later(f: nat -> seq<nat>, c: multiset<nat>, t: nat)
    ensures Spreads(f, c, t + 1) == Spread(f, Spreads(f, c, t))
    decreases t
  {
    if t > 0 {
      Later(f, Spread(f, c), t - 1);
    }
  }
}
