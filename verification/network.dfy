/** Haunted wasteland (2023/8/aoc8.go): node names hashed in base 26, and
    the cycle lengths of the ghosts combined into their least common
    multiple with a binary gcd.
 */
module Network {
  import opened Wrappers

  // ---------------------------------------------------------------------
  // Node names

  predicate IsUpper(c: char) {
    'A' <= c <= 'Z'
  }

  /** A node name: three upper-case letters. */
  predicate IsName(s: string) {
    |s| == 3 && IsUpper(s[0]) && IsUpper(s[1]) && IsUpper(s[2])
  }

  /** ctoi: the letter's rank, 'A' being 0. */
  function Letter(c: char): (d: int)
    requires IsUpper(c)
    ensures 0 <= d < 26
  {
    c as int - 'A' as int
  }

  function LetterOf(d: int): (c: char)
    requires 0 <= d < 26
    ensures IsUpper(c) && Letter(c) == d
  {
    ('A' as int + d) as char
  }

  /** Number of distinct names, the size of the node table. */
  const Nodes: int := 17576

  /** hash: the name read as three base-26 digits, most significant first. */
  function Hash(s: string): (h: int)
    requires IsName(s)
    ensures 0 <= h < Nodes
    ensures h / 676 == Letter(s[0]) && h / 26 % 26 == Letter(s[1]) && h % 26 == Letter(s[2])
  {
    (Letter(s[0]) * 26 + Letter(s[1])) * 26 + Letter(s[2])
  }

  /** The name of a node number: its three base-26 digits as letters. */
  function Name(h: int): (s: string)
    requires 0 <= h < Nodes
    ensures IsName(s)
  {
    [LetterOf(h / 676), LetterOf(h / 26 % 26), LetterOf(h % 26)]
  }

  lemma HashName(h: int)
    requires 0 <= h < Nodes
    ensures Hash(Name(h)) == h
  {
  }

  lemma NameHash(s: string)
    requires IsName(s)
    ensures Name(Hash(s)) == s
  {
  }

  /** Hash is one-to-one on names. */
  lemma HashInjective(s: string, t: string)
    requires IsName(s) && IsName(t) && Hash(s) == Hash(t)
    ensures s == t
  {
    NameHash(s);
    NameHash(t);
  }

  predicate IsRoot(h: int) {
    h % 26 == 0
  }

  predicate IsGoal(h: int) {
    h % 26 == 25
  }

  /** A ghost starts on the names ending in 'A' and stops on those ending
      in 'Z'. */
  lemma RootGoalIff(s: string)
    requires IsName(s)
    ensures IsRoot(Hash(s)) <==> s[2] == 'A'
    ensures IsGoal(Hash(s)) <==> s[2] == 'Z'
  {
  }

  /** The debug formatter asString as written: it collects the base-26 digits
      of n while n is positive and then reads three of them, so a number with
      fewer than three digits has nothing to read. */
  function AsString(n: int): (r: Option<string>)
    requires 0 <= n < Nodes
    ensures r.Some? <==> n >= 676
    ensures r.Some? ==> r.value == Name(n)
  {
    if n >= 676 then Some([LetterOf(n / 676), LetterOf(n / 26 % 26), LetterOf(n % 26)])
    else None
  }

  /** Every name starting with 'A' is such a number: "AAA" is node 0. */
  lemma AsStringDropsA()
    ensures Hash("AAA") == 0 && AsString(Hash("AAA")).None?
    ensures Hash("AZZ") == 675 && AsString(Hash("AZZ")).None?
  {
  }

  // ---------------------------------------------------------------------
  // Divisibility and a reference gcd

  ghost predicate Divides(d: int, n: int) {
    exists k :: n == d * k
  }

  lemma DividesWitness(d: int, n: int, k: int)
    requires n == d * k
    ensures Divides(d, n)
  {
  }

  lemma DividesSum(d: int, x: int, y: int)
    requires Divides(d, x) && Divides(d, y)
    ensures Divides(d, x + y) && Divides(d, x - y)
  {
    var a :| x == d * a;
    var b :| y == d * b;
    assert x + y == d * (a + b);
    assert x - y == d * (a - b);
  }

  lemma DividesTrans(a: int, b: int, c: int)
    requires Divides(a, b) && Divides(b, c)
    ensures Divides(a, c)
  {
    var k :| b == a * k;
    var l :| c == b * l;
    assert c == a * (k * l);
  }

  lemma DividesMultiple(d: int, n: int, k: int)
    requires Divides(d, n)
    ensures Divides(d, n * k)
  {
    var a :| n == d * a;
    assert n * k == d * (a * k);
  }

  /** Two naturals that divide each other are equal. */
  lemma DividesAntisymmetric(x: nat, y: nat)
    requires Divides(x, y) && Divides(y, x)
    ensures x == y
  {
    var a :| y == x * a;
    var b :| x == y * b;
    if x != 0 {
      assert x * (a * b) == x * 1;
      assert a * b == 1;
      assert a > 0;
      assert a == 1;
    }
  }

  /** An odd divisor of an even number divides its half. */
  lemma OddDividesHalf(d: int, x: int)
    requires d % 2 == 1 && Divides(d, 2 * x)
    ensures Divides(d, x)
  {
    var k :| 2 * x == d * k;
    OddFactor(d, x, k);
    var n := k / 2;
    assert 2 * x == 2 * (d * n) by { MulAssoc(d, n); }
  }

  lemma OddFactor(d: int, x: int, k: int)
    requires d % 2 == 1 && 2 * x == d * k
    ensures k % 2 == 0
  {
    var m := d / 2;
    var t := m * k;
    assert d * k == 2 * t + k;
  }

  lemma MulAssoc(p: int, a: int)
    ensures (2 * p) * a == 2 * (p * a) && p * (2 * a) == 2 * (p * a)
  {
  }

  lemma EvenTimes(g: int, k: int)
    requires g % 2 == 0
    ensures (g * k) % 2 == 0
  {
    var m := g / 2;
    var t := m * k;
    assert g * k == 2 * t;
  }

  lemma MulDiv(g: int, k: int)
    requires g > 0
    ensures (g * k) / g == k
  {
    var n := g * k;
    var q := n / g;
    var j := k - q;
    assert g * j == n - g * q;
    if j >= 1 {
      MulAtLeast(g, j);
    } else if j <= -1 {
      MulAtLeast(g, -j);
    }
  }

  lemma MulAtLeast(g: int, j: int)
    requires g > 0 && j >= 1
    ensures g * j >= g
  {
  }

  /** Euclid's subtractive gcd, the reference the binary gcd is held to. */
  function Gcd(a: nat, b: nat): nat
    decreases a + b
  {
    if a == 0 then b
    else if b == 0 then a
    else if a >= b then Gcd(a - b, b)
    else Gcd(a, b - a)
  }

  lemma {:induction false} GcdDivides(a: nat, b: nat)
    ensures Divides(Gcd(a, b), a) && Divides(Gcd(a, b), b)
    decreases a + b
  {
    var g := Gcd(a, b);
    if a == 0 {
      DividesWitness(g, a, 0);
      DividesWitness(g, b, 1);
    } else if b == 0 {
      DividesWitness(g, a, 1);
      DividesWitness(g, b, 0);
    } else if a >= b {
      GcdDivides(a - b, b);
      DividesSum(g, a - b, b);
    } else {
      GcdDivides(a, b - a);
      DividesSum(g, b - a, a);
    }
  }

  lemma {:induction false} GcdGreatest(a: nat, b: nat, d: int)
    requires Divides(d, a) && Divides(d, b)
    ensures Divides(d, Gcd(a, b))
    decreases a + b
  {
    if a != 0 && b != 0 {
      if a >= b {
        DividesSum(d, a, b);
        GcdGreatest(a - b, b, d);
      } else {
        DividesSum(d, b, a);
        GcdGreatest(a, b - a, d);
      }
    }
  }

  /** The reference is the greatest common divisor: it divides both
      arguments and every common divisor divides it. */
  lemma GcdIsGreatestCommonDivisor(a: nat, b: nat)
    ensures Divides(Gcd(a, b), a) && Divides(Gcd(a, b), b)
    ensures forall d :: Divides(d, a) && Divides(d, b) ==> Divides(d, Gcd(a, b))
  {
    GcdDivides(a, b);
    forall d | Divides(d, a) && Divides(d, b)
      ensures Divides(d, Gcd(a, b))
    {
      GcdGreatest(a, b, d);
    }
  }

  /** A natural with those two properties is the gcd. */
  lemma GcdUnique(a: nat, b: nat, g: nat)
    requires Divides(g, a) && Divides(g, b)
    requires forall d :: Divides(d, a) && Divides(d, b) ==> Divides(d, g)
    ensures g == Gcd(a, b)
  {
    GcdIsGreatestCommonDivisor(a, b);
    DividesAntisymmetric(g, Gcd(a, b));
  }

  /** Euclid's remainder step keeps the gcd. */
  lemma GcdMod(a: nat, b: nat)
    requires b > 0
    ensures Gcd(a, b) == Gcd(b, a % b)
  {
    var g, h := Gcd(a, b), Gcd(b, a % b);
    var q := a / b;
    assert a == b * q + a % b;
    GcdDivides(a, b);
    GcdDivides(b, a % b);
    DividesMultiple(g, b, q);
    DividesSum(g, a, b * q);
    GcdGreatest(b, a % b, g);
    DividesMultiple(h, b, q);
    DividesSum(h, b * q, a % b);
    GcdGreatest(a, b, h);
    DividesAntisymmetric(g, h);
  }

  lemma {:induction false} GcdSymmetric(a: nat, b: nat)
    ensures Gcd(a, b) == Gcd(b, a)
  {
    GcdIsGreatestCommonDivisor(a, b);
    GcdIsGreatestCommonDivisor(b, a);
    DividesAntisymmetric(Gcd(a, b), Gcd(b, a));
  }

  lemma {:induction false} GcdDouble(a: nat, b: nat)
    ensures Gcd(2 * a, 2 * b) == 2 * Gcd(a, b)
    decreases a + b
  {
    if a != 0 && b != 0 {
      if a >= b {
        GcdDouble(a - b, b);
      } else {
        GcdDouble(a, b - a);
      }
    }
  }

  /** Halving an even argument keeps the gcd when the other is odd. */
  lemma GcdHalve(x: nat, y: nat)
    requires y % 2 == 1
    ensures Gcd(2 * x, y) == Gcd(x, y)
  {
    var g, h := Gcd(2 * x, y), Gcd(x, y);
    GcdDivides(2 * x, y);
    GcdDivides(x, y);
    DividesMultiple(h, x, 2);
    GcdGreatest(2 * x, y, h);
    var k :| y == g * k;
    OddDivisor(g, y, k);
    OddDividesHalf(g, x);
    GcdGreatest(x, y, g);
    DividesAntisymmetric(g, h);
  }

  lemma OddDivisor(g: int, y: int, k: int)
    requires y % 2 == 1 && y == g * k
    ensures g % 2 == 1
  {
    if g % 2 == 0 {
      EvenTimes(g, k);
    }
  }

  // ---------------------------------------------------------------------
  // Bits of naturals

  /** `x << k`. */
  function Shl(x: nat, k: nat): nat {
    if k == 0 then x else 2 * Shl(x, k - 1)
  }

  /** `x >> k`. */
  function Shr(u: nat, k: nat): nat {
    if k == 0 then u else Shr(u / 2, k - 1)
  }

  lemma {:induction false} ShlAdd(x: nat, i: nat, j: nat)
    ensures Shl(x, i + j) == Shl(Shl(x, j), i)
  {
    if i > 0 {
      ShlAdd(x, i - 1, j);
    }
  }

  /** bits.TrailingZeros of a positive number. */
  function TrailingZeros(u: nat): nat
    requires u > 0
  {
    if u % 2 == 1 then 0 else 1 + TrailingZeros(u / 2)
  }

  /** The odd factor left once the trailing zeros are shifted out. */
  function OddPart(u: nat): (o: nat)
    requires u > 0
    ensures o % 2 == 1 && o <= u && u == Shl(o, TrailingZeros(u))
  {
    if u % 2 == 1 then u else OddPart(u / 2)
  }

  /** `u >> TrailingZeros(u)` is the odd part. */
  lemma {:induction false} ShiftOutZeros(u: nat)
    requires u > 0
    ensures Shr(u, TrailingZeros(u)) == OddPart(u)
  {
    if u % 2 == 0 {
      ShiftOutZeros(u / 2);
    }
  }

  /** Bitwise or of naturals, bit by bit from the least significant. */
  function Or(u: nat, v: nat): (r: nat)
    ensures r == 0 <==> u == 0 && v == 0
    ensures r % 2 == 1 <==> u % 2 == 1 || v % 2 == 1
    decreases u + v
  {
    if u == 0 then v
    else if v == 0 then u
    else
      var bit := if u % 2 == 1 || v % 2 == 1 then 1 else 0;
      var h := Or(u / 2, v / 2);
      HalfBit(h, bit);
      2 * h + bit
  }

  /** 2h + bit keeps bit as its low bit and h above it. */
  lemma HalfBit(h: nat, bit: nat)
    requires bit < 2
    ensures (2 * h + bit) % 2 == bit && (2 * h + bit) / 2 == h
  {
  }

  function Min(x: nat, y: nat): nat {
    if x <= y then x else y
  }

  /** The trailing zeros of u | v are the common trailing zeros. */
  lemma {:induction false} TrailingZerosOr(u: nat, v: nat)
    requires u > 0 && v > 0
    ensures TrailingZeros(Or(u, v)) == Min(TrailingZeros(u), TrailingZeros(v))
    decreases u + v
  {
    if u % 2 == 0 && v % 2 == 0 {
      TrailingZerosOr(u / 2, v / 2);
      assert Or(u, v) / 2 == Or(u / 2, v / 2);
    }
  }

  /** Shifting both arguments left by k shifts the gcd left by k. */
  lemma {:induction false} GcdScale(a: nat, b: nat, k: nat)
    ensures Gcd(Shl(a, k), Shl(b, k)) == Shl(Gcd(a, b), k)
  {
    if k > 0 {
      GcdScale(a, b, k - 1);
      GcdDouble(Shl(a, k - 1), Shl(b, k - 1));
    }
  }

  /** Shifting one argument keeps the gcd when the other is odd. */
  lemma {:induction false} GcdOddPart(x: nat, y: nat, k: nat)
    requires y % 2 == 1
    ensures Gcd(Shl(x, k), y) == Gcd(x, y)
  {
    if k > 0 {
      GcdOddPart(x, y, k - 1);
      GcdHalve(Shl(x, k - 1), y);
    }
  }

  /** gcd(a, b) is the gcd of the odd parts shifted by the common trailing
      zeros. */
  lemma GcdOddParts(a: nat, b: nat)
    requires a > 0 && b > 0
    ensures Gcd(a, b) == Shl(Gcd(OddPart(a), OddPart(b)), Min(TrailingZeros(a), TrailingZeros(b)))
  {
    if TrailingZeros(a) <= TrailingZeros(b) {
      GcdFewerZeros(a, b);
    } else {
      GcdFewerZeros(b, a);
      GcdSymmetric(a, b);
      GcdSymmetric(OddPart(a), OddPart(b));
    }
  }

  lemma GcdFewerZeros(a: nat, b: nat)
    requires a > 0 && b > 0 && TrailingZeros(a) <= TrailingZeros(b)
    ensures Gcd(a, b) == Shl(Gcd(OddPart(a), OddPart(b)), TrailingZeros(a))
  {
    var ta, tb := TrailingZeros(a), TrailingZeros(b);
    var oa, ob := OddPart(a), OddPart(b);
    var e := tb - ta;
    ShlAdd(ob, ta, e);
    GcdScale(oa, Shl(ob, e), ta);
    GcdSymmetric(oa, Shl(ob, e));
    GcdOddPart(ob, oa, e);
    GcdSymmetric(ob, oa);
  }

  /** One turn of the binary gcd: the odd part of the difference of two
      odd numbers replaces the larger without changing the gcd. */
  lemma GcdStep(u: nat, v: nat)
    requires u > v > 0 && u % 2 == 1 && v % 2 == 1
    ensures var w := Shr(u - v, TrailingZeros(u - v));
      0 < w < u && w % 2 == 1 && Gcd(w, v) == Gcd(u, v)
  {
    ShiftOutZeros(u - v);
    GcdOddPart(OddPart(u - v), v, TrailingZeros(u - v));
  }

  // ---------------------------------------------------------------------
  // gcd and lcm as written

  /** gcd: Stein's binary algorithm. The common factors of two are counted
      from a | b, both arguments are made odd, and the larger is repeatedly
      replaced by the odd part of the difference. */
  method BinaryGcd(a: nat, b: nat) returns (g: nat)
    ensures a == 0 ==> g == b
    ensures b == 0 ==> g == a
    ensures g == Gcd(a, b)
  {
    var u, v := a, b;
    if u == 0 {
      return b;
    }
    if v == 0 {
      return a;
    }
    var e := TrailingZeros(Or(u, v));
    TrailingZerosOr(u, v);
    ShiftOutZeros(u);
    ShiftOutZeros(v);
    GcdOddParts(a, b);
    u := Shr(u, TrailingZeros(u));
    v := Shr(v, TrailingZeros(v));
    while u != v
      invariant u > 0 && v > 0 && u % 2 == 1 && v % 2 == 1
      invariant Gcd(a, b) == Shl(Gcd(u, v), e)
      decreases u + v
    {
      if u < v {
        GcdSymmetric(u, v);
        u, v := v, u;
      }
      GcdStep(u, v);
      u := Shr(u - v, TrailingZeros(u - v));
    }
    g := Shl(u, e);
  }

  lemma MulAssoc3(x: int, y: int, z: int)
    ensures (x * y) * z == x * (y * z)
  {
  }

  /** One step of lcm: p * (n / gcd(p, n)) is a positive common multiple. */
  lemma LcmStep(p: nat, n: nat)
    requires p > 0 && n > 0
    ensures Gcd(p, n) > 0
    ensures var m := p * (n / Gcd(p, n)); m > 0 && Divides(p, m) && Divides(n, m)
  {
    var g := Gcd(p, n);
    GcdDivides(p, n);
    var kp :| p == g * kp;
    var kn :| n == g * kn;
    MulDiv(g, kn);
    PositiveFactor(g, kn);
    MulAssoc3(g, kp, kn);
    MulAssoc3(g, kn, kp);
    var m := p * kn;
    DividesWitness(p, m, kn);
    DividesWitness(n, m, kp);
  }

  lemma PositiveFactor(g: int, k: int)
    requires g > 0 && g * k > 0
    ensures k > 0 && g * k >= g
  {
  }

  /** Every one of the first i numbers divides p. */
  ghost predicate MultipleOfFirst(nums: seq<nat>, i: int, p: int)
    requires 0 <= i <= |nums|
  {
    forall j :: 0 <= j < i ==> Divides(nums[j], p)
  }

  lemma LcmExtends(nums: seq<nat>, i: int, p: nat)
    requires 0 <= i < |nums| && p > 0 && nums[i] > 0 && MultipleOfFirst(nums, i, p)
    ensures Gcd(p, nums[i]) > 0
    ensures var q := p * (nums[i] / Gcd(p, nums[i])); q > 0 && MultipleOfFirst(nums, i + 1, q)
  {
    LcmStep(p, nums[i]);
    var q := p * (nums[i] / Gcd(p, nums[i]));
    forall j | 0 <= j < i
      ensures Divides(nums[j], q)
    {
      DividesTrans(nums[j], p, q);
    }
  }

  /** lcm: the running product, each cycle length divided by what it
      shares with the product so far. */
  method Lcm(nums: seq<nat>) returns (p: nat)
    requires forall i :: 0 <= i < |nums| ==> nums[i] > 0
    ensures nums == [] ==> p == 1
    ensures p > 0 && forall i :: 0 <= i < |nums| ==> Divides(nums[i], p)
  {
    p := 1;
    for i := 0 to |nums|
      invariant i == 0 ==> p == 1
      invariant p > 0 && MultipleOfFirst(nums, i, p)
    {
      var g := BinaryGcd(p, nums[i]);
      LcmExtends(nums, i, p);
      p := p * (nums[i] / g);
    }
  }
}
