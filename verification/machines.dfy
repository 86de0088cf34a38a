/** Factory (2025/10/aoc10.go): the integer helpers of the joltage solver
    (rounded divisions, extended gcd, sign normalisation, row arithmetic on
    16-wide vectors) and the breadth-first search over light patterns.
 */
module Machines {
  import opened Wrappers
  import opened GoInt
  import Network

  // ---------------------------------------------------------------------
  // Rounded division

  /** cdiv: rounds a / b up. For a >= 0 it biases the dividend by b - 1;
      for a < 0 truncation already rounds up. */
  function Cdiv(a: int, b: int): (q: int)
    requires b != 0
    ensures b > 0 ==> b * q - b < a <= b * q
  {
    if a >= 0 then Quo(a + b - 1, b) else Quo(a, b)
  }

  /** fdiv: rounds a / b down. For a < 0 it biases the dividend by b - 1;
      for a >= 0 truncation already rounds down. */
  function Fdiv(a: int, b: int): (q: int)
    requires b != 0
    ensures b > 0 ==> b * q <= a < b * q + b
  {
    if a >= 0 then Quo(a, b) else Quo(a - (b - 1), b)
  }

  /** Only one integer sits in each of those ranges, so fdiv is floor
      division. */
  lemma FdivIsFloor(a: int, b: int)
    requires b > 0
    ensures Fdiv(a, b) == a / b
  {
    FloorUnique(a, b, Fdiv(a, b));
  }

  /** cdiv is ceiling division: minus the floor of minus a. */
  lemma CdivIsCeiling(a: int, b: int)
    requires b > 0
    ensures Cdiv(a, b) == -((-a) / b)
  {
    var q := Cdiv(a, b);
    assert b * (-q) == -(b * q);
    FloorUnique(-a, b, -q);
  }

  /** The ceiling is minus the floor of minus a. */
  lemma CdivMirror(a: int, b: int)
    requires b > 0
    ensures Cdiv(a, b) == -Fdiv(-a, b)
  {
    CdivIsCeiling(a, b);
    FdivIsFloor(-a, b);
  }

  /** The two round the same way exactly on multiples of b, and otherwise
      the ceiling is one above the floor. */
  lemma CdivFdiv(a: int, b: int)
    requires b > 0
    ensures a % b == 0 ==> Cdiv(a, b) == Fdiv(a, b)
    ensures a % b != 0 ==> Cdiv(a, b) == Fdiv(a, b) + 1
  {
    CdivIsCeiling(a, b);
    FdivIsFloor(a, b);
    DivMod(a, b);
    NegatedFloor(a, b);
  }

  lemma NegatedFloor(a: int, b: int)
    requires b > 0
    ensures a % b == 0 ==> (-a) / b == -(a / b)
    ensures a % b != 0 ==> (-a) / b == -(a / b) - 1
  {
    var q, r := a / b, a % b;
    DivMod(a, b);
    if r == 0 {
      assert b * (-q) == -(b * q);
      FloorUnique(-a, b, -q);
    } else {
      assert b * (-q - 1) == -(b * q) - b;
      FloorUnique(-a, b, -q - 1);
    }
  }

  lemma DivMod(a: int, b: int)
    requires b > 0
    ensures a == b * (a / b) + a % b && 0 <= a % b < b
  {
  }

  lemma FloorUnique(a: int, b: int, q: int)
    requires b > 0 && b * q <= a < b * q + b
    ensures q == a / b
  {
    var r := a / b;
    assert b * r <= a < b * r + b;
    if q < r {
      MulMonotone(b, q + 1, r);
    } else if r < q {
      MulMonotone(b, r + 1, q);
    }
  }

  lemma MulMonotone(b: int, x: int, y: int)
    requires b > 0 && x <= y
    ensures b * x <= b * y
  {
  }

  // ---------------------------------------------------------------------
  // Extended gcd

  /** The Bezout combination is kept through one Euclid step. */
  lemma EgcdStep(a0: int, b0: int, x0: int, x1: int, y0: int, y1: int, q: int)
    ensures a0 * (x0 - q * x1) + b0 * (y0 - q * y1) == (a0 * x0 + b0 * y0) - q * (a0 * x1 + b0 * y1)
  {
    assert a0 * (x0 - q * x1) == a0 * x0 - q * (a0 * x1);
    assert b0 * (y0 - q * y1) == b0 * y0 - q * (b0 * y1);
  }

  /** egcd: Euclid's algorithm with Go's truncating / and %, carrying the
      coefficients of both current values. The result satisfies Bezout's
      identity, and on non-negative arguments it is their gcd. */
  method Egcd(a0: int, b0: int) returns (g: int, x: int, y: int)
    ensures a0 * x + b0 * y == g
    ensures a0 >= 0 && b0 >= 0 ==> g == Network.Gcd(a0, b0)
  {
    var a, b := a0, b0;
    var x0, x1 := 1, 0;
    var y0, y1 := 0, 1;
    while b != 0
      invariant a0 * x0 + b0 * y0 == a && a0 * x1 + b0 * y1 == b
      invariant a0 >= 0 && b0 >= 0 ==> a >= 0 && b >= 0 && Network.Gcd(a, b) == Network.Gcd(a0, b0)
      decreases Abs(b)
    {
      var q := Quo(a, b);
      if a >= 0 && b >= 0 {
        QuoNonNegative(a, b);
        Network.GcdMod(a, b);
      }
      EgcdStep(a0, b0, x0, x1, y0, y1, q);
      a, b := b, Rem(a, b);
      x0, x1 := x1, x0 - q * x1;
      y0, y1 := y1, y0 - q * y1;
    }
    return a, x0, y0;
  }

  // ---------------------------------------------------------------------
  // Vectors

  function Sum(v: seq<int>): int {
    if |v| == 0 then 0 else Sum(v[..|v| - 1]) + v[|v| - 1]
  }

  function Negate(v: seq<int>): (w: seq<int>)
    ensures |w| == |v|
  {
    seq(|v|, i requires 0 <= i < |v| => -v[i])
  }

  lemma {:induction false} SumNegate(v: seq<int>)
    ensures Sum(Negate(v)) == -Sum(v)
  {
    if |v| > 0 {
      SumNegate(v[..|v| - 1]);
      assert Negate(v)[..|v| - 1] == Negate(v[..|v| - 1]);
    }
  }

  /** Σplus: the sum of the entries made non-negative, flipping every
      entry when it was negative. The vector returned sums to the value
      returned. */
  method SumPlus(v: seq<int>) returns (s: int, w: seq<int>)
    ensures s == Abs(Sum(v)) && Sum(w) == s
    ensures Sum(v) >= 0 ==> w == v
    ensures Sum(v) < 0 ==> w == Negate(v)
  {
    s := 0;
    for i := 0 to |v|
      invariant s == Sum(v[..i])
    {
      assert v[..i + 1][..i] == v[..i];
      s := s + v[i];
    }
    assert v[..|v|] == v;
    w := v;
    if s < 0 {
      s := -s;
      var n := [];
      for i := 0 to |v|
        invariant n == Negate(v[..i])
      {
        n := n + [-v[i]];
      }
      assert v[..|v|] == v;
      w := n;
      SumNegate(v);
    }
  }

  /** Rows are 16 wide. */
  const Width: int := 16

  /** x: the row-major index of cell (r, c). */
  function Index(r: int, c: int): int {
    r * Width + c
  }

  /** Within the width, the index determines the row and the column. */
  lemma IndexInverse(r: int, c: int)
    requires 0 <= c < Width
    ensures Index(r, c) / Width == r && Index(r, c) % Width == c
  {
  }

  lemma IndexInjective(r: int, c: int, r': int, c': int)
    requires 0 <= c < Width && 0 <= c' < Width && Index(r, c) == Index(r', c')
    ensures r == r' && c == c'
  {
    IndexInverse(r, c);
    IndexInverse(r', c');
  }

  /** linc: x, y <- a*x + b*y, c*x + d*y, entry by entry, both from the old
      values. */
  function Linc(x: seq<int>, y: seq<int>, a: int, b: int, c: int, d: int): (r: (seq<int>, seq<int>))
    requires |x| == |y|
    ensures |r.0| == |x| && |r.1| == |x|
  {
    (seq(|x|, i requires 0 <= i < |x| => a * x[i] + b * y[i]),
     seq(|x|, i requires 0 <= i < |x| => c * x[i] + d * y[i]))
  }

  /** A combination of determinant one is undone by the adjugate one: the
      elimination steps are unimodular and lose nothing. */
  lemma LincInverse(x: seq<int>, y: seq<int>, a: int, b: int, c: int, d: int)
    requires |x| == |y| && a * d - b * c == 1
    ensures var r := Linc(x, y, a, b, c, d); Linc(r.0, r.1, d, -b, -c, a) == (x, y)
  {
    var r := Linc(x, y, a, b, c, d);
    var s := Linc(r.0, r.1, d, -b, -c, a);
    forall i | 0 <= i < |x|
      ensures s.0[i] == x[i] && s.1[i] == y[i]
    {
      Adjugate(x[i], y[i], a, b, c, d);
    }
    assert s.0 == x && s.1 == y;
  }

  lemma Adjugate(p: int, q: int, a: int, b: int, c: int, d: int)
    requires a * d - b * c == 1
    ensures d * (a * p + b * q) + (-b) * (c * p + d * q) == p
    ensures (-c) * (a * p + b * q) + a * (c * p + d * q) == q
  {
    assert d * (a * p + b * q) + (-b) * (c * p + d * q) == (a * d - b * c) * p;
    assert (-c) * (a * p + b * q) + a * (c * p + d * q) == (a * d - b * c) * q;
  }

  /** axpy: y <- y + a*x entry by entry. */
  function Axpy(a: int, x: seq<int>, y: seq<int>): (r: seq<int>)
    requires |x| == |y|
    ensures |r| == |y|
  {
    seq(|y|, i requires 0 <= i < |y| => y[i] + x[i] * a)
  }

  /** Adding a*x then -a*x gives y back, and a*x then b*x is (a+b)*x. */
  lemma AxpyInverse(a: int, x: seq<int>, y: seq<int>)
    requires |x| == |y|
    ensures Axpy(-a, x, Axpy(a, x, y)) == y
  {
    assert forall i :: 0 <= i < |y| ==> Axpy(-a, x, Axpy(a, x, y))[i] == y[i] + x[i] * a + x[i] * (-a);
  }

  lemma AxpyAdds(a: int, b: int, x: seq<int>, y: seq<int>)
    requires |x| == |y|
    ensures Axpy(b, x, Axpy(a, x, y)) == Axpy(a + b, x, y)
  {
    forall i | 0 <= i < |y|
      ensures Axpy(b, x, Axpy(a, x, y))[i] == Axpy(a + b, x, y)[i]
    {
      assert x[i] * a + x[i] * b == x[i] * (a + b);
    }
  }

  // ---------------------------------------------------------------------
  // Part 1: fewest button presses

  /** Exclusive or of naturals, bit by bit from the least significant. */
  function Xor(u: nat, v: nat): nat
    decreases u + v
  {
    if u == 0 then v
    else if v == 0 then u
    else 2 * Xor(u / 2, v / 2) + (if u % 2 != v % 2 then 1 else 0)
  }

  function Pow2(k: nat): (p: nat)
    ensures p > 0
  {
    if k == 0 then 1 else 2 * Pow2(k - 1)
  }

  lemma {:induction false} XorBound(u: nat, v: nat, w: nat)
    requires u < Pow2(w) && v < Pow2(w)
    ensures Xor(u, v) < Pow2(w)
    decreases u + v
  {
    if u != 0 && v != 0 {
      XorBound(u / 2, v / 2, w - 1);
    }
  }

  /** The patterns one more press reaches from the patterns in s. */
  function Step(s: set<nat>, flips: seq<nat>): set<nat> {
    set u, f | u in s && f in flips :: Xor(u, f)
  }

  /** The patterns exactly k presses reach from all lights off. */
  ghost function Reach(k: nat, flips: seq<nat>): set<nat> {
    if k == 0 then {0} else Step(Reach(k - 1, flips), flips)
  }

  /** The patterns at most k presses reach. */
  ghost function Upto(k: nat, flips: seq<nat>): set<nat> {
    if k == 0 then Reach(0, flips) else Upto(k - 1, flips) + Reach(k, flips)
  }

  /** k presses can light the pattern. */
  ghost predicate Reached(light: nat, k: nat, flips: seq<nat>) {
    light in Reach(k, flips)
  }

  /** light is first reached with k presses. */
  ghost predicate Fewest(light: nat, k: nat, flips: seq<nat>) {
    Reached(light, k, flips) && forall j :: 0 <= j < k ==> !Reached(light, j, flips)
  }

  /** The patterns of w lights: the naturals below n. */
  function Range(n: nat): (r: set<nat>)
    ensures |r| == n
    ensures forall x: nat :: x in r <==> x < n
  {
    if n == 0 then {} else Range(n - 1) + {n - 1}
  }

  lemma SubsetTrans(a: set<nat>, b: set<nat>, c: set<nat>)
    requires a <= b && b <= c
    ensures a <= c
  {
  }

  lemma SubsetSize(a: set<nat>, b: set<nat>)
    requires a <= b
    ensures |a| <= |b|
  {
    assert b == a + (b - a);
  }

  predicate InRange(flips: seq<nat>, n: nat) {
    forall i :: 0 <= i < |flips| ==> flips[i] < n
  }

  /** Step of a union is the union of the steps; Step is monotone. */
  lemma StepUnion(a: set<nat>, b: set<nat>, flips: seq<nat>)
    ensures Step(a + b, flips) == Step(a, flips) + Step(b, flips)
  {
  }

  lemma StepMonotone(a: set<nat>, b: set<nat>, flips: seq<nat>)
    requires a <= b
    ensures Step(a, flips) <= Step(b, flips)
  {
  }

  lemma StepInRange(s: set<nat>, flips: seq<nat>, w: nat)
    requires s <= Range(Pow2(w)) && InRange(flips, Pow2(w))
    ensures Step(s, flips) <= Range(Pow2(w))
  {
    forall u, f | u in s && f in flips
      ensures Xor(u, f) in Range(Pow2(w))
    {
      XorBound(u, f, w);
    }
  }

  lemma {:induction false} UptoInRange(k: nat, flips: seq<nat>, w: nat)
    requires InRange(flips, Pow2(w))
    ensures Upto(k, flips) <= Range(Pow2(w)) && Reach(k, flips) <= Range(Pow2(w))
  {
    if k > 0 {
      UptoInRange(k - 1, flips, w);
      StepInRange(Reach(k - 1, flips), flips, w);
    }
  }

  /** One press from at most k presses lands within at most k+1. */
  lemma {:induction false} StepUpto(k: nat, flips: seq<nat>)
    requires k > 0
    ensures Step(Upto(k - 1, flips), flips) <= Upto(k, flips)
  {
    if k > 1 {
      StepUpto(k - 1, flips);
      StepUnion(Upto(k - 2, flips), Reach(k - 1, flips), flips);
    }
  }

  lemma {:induction false} UptoGrows(j: nat, k: nat, flips: seq<nat>)
    requires j <= k
    ensures Reach(j, flips) <= Upto(k, flips)
  {
    if j < k {
      UptoGrows(j, k - 1, flips);
    }
  }

  /** Once a level finds nothing new, no number of presses ever does. */
  lemma {:induction false} Closed(k: nat, j: nat, flips: seq<nat>)
    requires k > 0 && Reach(k, flips) <= Upto(k - 1, flips)
    ensures Reach(j, flips) <= Upto(k - 1, flips)
  {
    var u := Upto(k - 1, flips);
    if j > k {
      Closed(k, j - 1, flips);
      StepMonotone(Reach(j - 1, flips), u, flips);
      StepUpto(k, flips);
      assert Upto(k, flips) == u + Reach(k, flips);
    } else if j < k {
      UptoGrows(j, k - 1, flips);
    }
  }

  /** The search state after level k: the new patterns found at level k
      and every pattern seen so far. */
  ghost predicate Level(k: nat, frontier: set<nat>, seen: set<nat>, flips: seq<nat>) {
    seen == Upto(k, flips) &&
    frontier == (if k == 0 then Reach(0, flips) else Reach(k, flips) - Upto(k - 1, flips))
  }

  /** The next level's new patterns come from the current frontier alone:
      patterns seen earlier already had their successors seen. */
  lemma NextLevel(k: nat, frontier: set<nat>, seen: set<nat>, flips: seq<nat>)
    requires Level(k, frontier, seen, flips)
    ensures Step(frontier, flips) - seen == Reach(k + 1, flips) - Upto(k, flips)
    ensures Level(k + 1, Step(frontier, flips) - seen, seen + (Step(frontier, flips) - seen), flips)
  {
    if k > 0 {
      NewFromFrontier(k, flips);
    }
  }

  lemma NewFromFrontier(k: nat, flips: seq<nat>)
    requires k > 0
    ensures Step(Reach(k, flips) - Upto(k - 1, flips), flips) - Upto(k, flips) == Reach(k + 1, flips) - Upto(k, flips)
  {
    var before, now, seen := Upto(k - 1, flips), Reach(k, flips), Upto(k, flips);
    var frontier, inner := now - before, now * before;
    assert now == frontier + inner;
    StepUnion(frontier, inner, flips);
    StepMonotone(inner, before, flips);
    StepUpto(k, flips);
    SubsetTrans(Step(inner, flips), Step(before, flips), seen);
    assert Reach(k + 1, flips) == Step(frontier, flips) + Step(inner, flips);
  }

  /** The patterns one press from the frontier that were not seen before;
      they stay among the patterns of w lights. */
  function Discover(frontier: set<nat>, seen: set<nat>, flips: seq<nat>, w: nat): (next: set<nat>)
    requires frontier <= seen <= Range(Pow2(w)) && InRange(flips, Pow2(w))
    ensures next == Step(frontier, flips) - seen
    ensures seen + next <= Range(Pow2(w)) && |seen + next| == |seen| + |next| <= Pow2(w)
  {
    StepInRange(frontier, flips, w);
    SubsetSize(seen + (Step(frontier, flips) - seen), Range(Pow2(w)));
    Step(frontier, flips) - seen
  }

  /** r is part 1's answer for light: the fewest presses, or nothing when
      no number of presses lights it (or it is the all-off pattern). */
  ghost predicate Answers(light: nat, r: Option<nat>, flips: seq<nat>) {
    (r.Some? ==> Fewest(light, r.value, flips)) &&
    (r.None? ==> light == 0 || Unreachable(light, flips))
  }

  /** No number of presses lights the pattern. */
  ghost predicate Unreachable(light: nat, flips: seq<nat>) {
    forall j: nat :: !Reached(light, j, flips)
  }

  /** part1: the last entry of flips is the width w of the patterns, the
      others are the buttons. The breadth-first search runs one level at a
      time: the answer is the level at which light is first discovered,
      and a level that discovers nothing ends the search without one. */
  method Part1(flips: seq<nat>, light: nat) returns (r: Option<nat>)
    requires |flips| > 0 && InRange(flips[..|flips| - 1], Pow2(flips[|flips| - 1]))
    ensures Answers(light, r, flips[..|flips| - 1])
    ensures light == 0 ==> r == None
  {
    var w := flips[|flips| - 1];
    var buttons := flips[..|flips| - 1];
    var k, frontier, seen := 0, {0}, {0};
    assert Level(0, {0}, {0}, buttons);
    while frontier != {}
      invariant frontier <= seen <= Range(Pow2(w))
      invariant Level(k, frontier, seen, buttons) && 0 in seen && (light == 0 || light !in seen)
      decreases Pow2(w) - |seen|, |frontier|
    {
      var next := Discover(frontier, seen, buttons, w);
      NextLevel(k, frontier, seen, buttons);
      if light in next {
        FoundFirst(light, k, buttons);
        return Some(k + 1);
      }
      k, frontier, seen := k + 1, next, seen + next;
    }
    EmptyLevel(k, seen, buttons);
    EmptyFrontier(light, k, buttons);
    r := None;
  }

  /** A level without new patterns closes the search: every number of
      presses stays among the patterns seen. */
  lemma EmptyFrontier(light: nat, k: nat, flips: seq<nat>)
    requires k > 0 && Reach(k, flips) <= Upto(k - 1, flips)
    ensures forall j: nat :: !Reached(light, j, flips) || light in Upto(k, flips)
  {
    forall j: nat
      ensures !Reached(light, j, flips) || light in Upto(k, flips)
    {
      ClosedUpto(k, j, flips);
    }
  }

  /** The first level is never empty. */
  lemma EmptyLevel(k: nat, seen: set<nat>, flips: seq<nat>)
    requires Level(k, {}, seen, flips)
    ensures k > 0 && Reach(k, flips) <= Upto(k - 1, flips)
  {
    if k > 0 {
      var found := Reach(k, flips) - Upto(k - 1, flips);
      assert found == {};
      forall x | x in Reach(k, flips)
        ensures x in Upto(k - 1, flips)
      {
        assert x !in found;
      }
    }
  }

  lemma ClosedUpto(k: nat, j: nat, flips: seq<nat>)
    requires k > 0 && Reach(k, flips) <= Upto(k - 1, flips)
    ensures Reach(j, flips) <= Upto(k, flips)
  {
    Closed(k, j, flips);
    assert Upto(k, flips) == Upto(k - 1, flips) + Reach(k, flips);
  }

  /** A pattern first met after level k is reached with k+1 presses and
      no fewer. */
  lemma FoundFirst(light: nat, k: nat, flips: seq<nat>)
    requires light in Reach(k + 1, flips) && light !in Upto(k, flips)
    ensures Fewest(light, k + 1, flips)
  {
    forall j | 0 <= j <= k
      ensures !Reached(light, j, flips)
    {
      UptoGrows(j, k, flips);
    }
  }

  /** The all-off pattern: part1 finds no answer for it, since the search
      only reports patterns it discovers after the start, although no
      press at all already gives it. */
  lemma AllOffUnanswered(buttons: seq<nat>)
    ensures Fewest(0, 0, buttons)
  {
    assert 0 in Reach(0, buttons);
  }

  /** part1 with the all-off pattern answered by zero presses. */
  method Part1Fixed(flips: seq<nat>, light: nat) returns (r: Option<nat>)
    requires |flips| > 0 && InRange(flips[..|flips| - 1], Pow2(flips[|flips| - 1]))
    ensures r.Some? ==> Fewest(light, r.value, flips[..|flips| - 1])
    ensures r.None? ==> Unreachable(light, flips[..|flips| - 1])
  {
    if light == 0 {
      AllOffUnanswered(flips[..|flips| - 1]);
      return Some(0);
    }
    r := Part1(flips, light);
  }
}
