/** Claw Contraption (2024/13/aoc13.go): button A moves the claw by (xA, yA)
    and button B by (xB, yB); a machine pays out when some counts of
    presses bring the claw exactly to the prize at (X, Y), moved by an
    offset in part 2. solve finds the counts by Cramer's rule, with Go's
    truncating division, and checks them. */
module Claw {
  import opened GoInt

  /** A machine as main collects it: xA, yA, xB, yB, X, Y. */
  predicate Machine(system: seq<int>) {
    |system| >= 6
  }

  /** The determinant of the button vectors. */
  function Det(system: seq<int>): int
    requires Machine(system)
  {
    system[0] * system[3] - system[1] * system[2]
  }

  /** a presses of A and b presses of B reach the prize moved by offset. */
  predicate Wins(system: seq<int>, offset: int, a: int, b: int)
    requires Machine(system)
  {
    a * system[0] + b * system[2] == system[4] + offset &&
    a * system[1] + b * system[3] == system[5] + offset
  }

  /** solve: (0, 0) for buttons along one line; otherwise the quotients
      of Cramer's rule, kept only when both are non-negative and really
      reach the prize. */
  function Solve(system: seq<int>, offset: int): (r: (int, int))
    requires Machine(system)
    ensures r.0 >= 0 && r.1 >= 0
    ensures Det(system) == 0 ==> r == (0, 0)
    ensures r != (0, 0) ==> Wins(system, offset, r.0, r.1)
  {
    var xA, yA, xB, yB := system[0], system[1], system[2], system[3];
    var x, y := system[4] + offset, system[5] + offset;
    var d := xA * yB - yA * xB;
    if d == 0 then (0, 0)
    else
      var a := Quo(x * yB - y * xB, d);
      var b := Quo(xA * y - x * yA, d);
      if a < 0 || b < 0 || a * xA != x - b * xB || a * yA != y - b * yB then (0, 0)
      else (a, b)
  }

  /** Go's division is exact on a multiple. */
  lemma QuoExact(a: int, d: int)
    requires d != 0
    ensures Quo(a * d, d) == a
  {
    MulAbs(a, d);
    DivExact(Abs(a), Abs(d));
    MulSign(a, d);
  }

  lemma MulAbs(a: int, d: int)
    ensures Abs(a * d) == Abs(a) * Abs(d)
  {
    if a < 0 && d < 0 {
      assert a * d == (-a) * (-d);
    } else if a < 0 {
      assert -(a * d) == (-a) * d;
    } else if d < 0 {
      assert -(a * d) == a * (-d);
    }
  }

  lemma MulSign(a: int, d: int)
    requires d != 0
    ensures a > 0 ==> (a * d > 0 <==> d > 0)
    ensures a < 0 ==> (a * d > 0 <==> d < 0)
  {
    if a > 0 && d < 0 {
      assert a * (-d) > 0;
    } else if a < 0 && d > 0 {
      assert (-a) * d > 0;
    } else if a < 0 && d < 0 {
      assert (-a) * (-d) > 0;
    }
  }

  lemma DivExact(n: nat, m: nat)
    requires m > 0
    ensures Div(n * m, m) == n
  {
    ModUnique(n * m, m, n, 0);
  }

  /** Cramer's numerators at a winning pair: they are the pair's counts
      times the determinant. */
  lemma Numerators(system: seq<int>, offset: int, a: int, b: int)
    requires Machine(system) && Wins(system, offset, a, b)
    ensures var xA, yA, xB, yB := system[0], system[1], system[2], system[3];
      var x, y := system[4] + offset, system[5] + offset;
      x * yB - y * xB == a * Det(system) && xA * y - x * yA == b * Det(system)
  {
    var xA, yA, xB, yB := system[0], system[1], system[2], system[3];
    var x, y := system[4] + offset, system[5] + offset;
    calc {
      x * yB - y * xB;
      (a * xA + b * xB) * yB - (a * yA + b * yB) * xB;
      a * (xA * yB - yA * xB) + b * (xB * yB - yB * xB);
      a * Det(system);
    }
    calc {
      xA * y - x * yA;
      xA * (a * yA + b * yB) - (a * xA + b * xB) * yA;
      a * (xA * yA - xA * yA) + b * (xA * yB - xB * yA);
      b * Det(system);
    }
  }

  /** solve finds every winning pair of press counts: when the buttons are
      not along one line, any non-negative counts that reach the prize are
      the ones solve returns. */
  lemma SolveFinds(system: seq<int>, offset: int, a: int, b: int)
    requires Machine(system) && Det(system) != 0
    requires a >= 0 && b >= 0 && Wins(system, offset, a, b)
    ensures Solve(system, offset) == (a, b)
  {
    Numerators(system, offset, a, b);
    QuoExact(a, Det(system));
    QuoExact(b, Det(system));
  }

  /** So the winning counts are unique, and the tokens main adds for a
      machine, 3 per A press and 1 per B press, are the fewest that win. */
  lemma WinsUnique(system: seq<int>, offset: int, a: int, b: int, a': int, b': int)
    requires Machine(system) && Det(system) != 0
    requires a >= 0 && b >= 0 && Wins(system, offset, a, b)
    requires a' >= 0 && b' >= 0 && Wins(system, offset, a', b')
    ensures a == a' && b == b'
  {
    SolveFinds(system, offset, a, b);
    SolveFinds(system, offset, a', b');
  }

  /** The tokens main adds for one machine. */
  function Tokens(r: (int, int)): int {
    r.0 * 3 + r.1
  }

  /** Every machine's tokens, as main sums them for an offset. */
  function Total(systems: seq<seq<int>>, offset: int): int
    requires forall i :: 0 <= i < |systems| ==> Machine(systems[i])
  {
    if systems == [] then 0
    else Total(systems[..|systems| - 1], offset) + Tokens(Solve(systems[|systems| - 1], offset))
  }

  /** main: the tokens for the prizes as given and moved by 10^13. */
  method Run(systems: seq<seq<int>>) returns (sum1: int, sum2: int)
    requires forall i :: 0 <= i < |systems| ==> Machine(systems[i])
    ensures sum1 == Total(systems, 0) && sum2 == Total(systems, 10_000_000_000_000)
    ensures sum1 >= 0 && sum2 >= 0
  {
    sum1, sum2 := 0, 0;
    for i := 0 to |systems|
      invariant sum1 == Total(systems[..i], 0) && sum2 == Total(systems[..i], 10_000_000_000_000)
      invariant sum1 >= 0 && sum2 >= 0
    {
      assert systems[..i + 1][..i] == systems[..i];
      var r := Solve(systems[i], 0);
      sum1 := sum1 + Tokens(r);
      r := Solve(systems[i], 10_000_000_000_000);
      sum2 := sum2 + Tokens(r);
    }
    assert systems[..|systems|] == systems;
  }
}
