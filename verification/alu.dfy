/** The helpers of the arithmetic logic unit solver (2021/24/aoc24.go):
    the stack of pending digit pushes, abs and pow on Go's 64-bit int. */
module Alu {
  import opened Int64

  /* The stack */

  /** A pending push: the digit position j and the program's b. */
  datatype Item = Item(j: Int, b: Int)

  /** push: append the item. */
  function Push(stack: seq<Item>, j: Int, b: Int): (r: seq<Item>)
    ensures |r| == |stack| + 1 && r[..|stack|] == stack
    ensures r[|stack|] == Item(j, b)
  {
    stack + [Item(j, b)]
  }

  /** pop: take the last item off. Popping an empty stack indexes at -1
      and panics, so the stack must not be empty. */
  function Pop(stack: seq<Item>): (r: (seq<Item>, Int, Int))
    requires stack != []
    ensures Push(r.0, r.1, r.2) == stack
  {
    var i := |stack| - 1;
    (stack[..i], stack[i].j, stack[i].b)
  }

  /** The last item pushed is the first popped, and the stack is left as
      it was before the push. */
  lemma PopPush(stack: seq<Item>, j: Int, b: Int)
    ensures Pop(Push(stack, j, b)) == (stack, j, b)
  {
  }

  /** Items come off in the reverse order they went on. */
  lemma PopTwice(stack: seq<Item>, j1: Int, b1: Int, j2: Int, b2: Int)
    ensures Pop(Push(Push(stack, j1, b1), j2, b2)).1 == j2
    ensures Pop(Pop(Push(Push(stack, j1, b1), j2, b2)).0) == (stack, j1, b1)
  {
    PopPush(Push(stack, j1, b1), j2, b2);
    PopPush(stack, j1, b1);
  }

  /* abs */

  /** abs: -a for negative a. Go's negation wraps, so abs(MinInt) is
      MinInt. */
  function Abs(a: Int): Int {
    if a < 0 then Wrap(-(a as int)) else a
  }

  /** abs is the distance from zero, except at MinInt, the one int whose
      negation overflows. */
  lemma AbsValue(a: Int)
    ensures a != MinInt ==> Abs(a) >= 0 && (Abs(a) == a || Abs(a) == -(a as int))
    ensures a == MinInt ==> Abs(a) == MinInt
  {
    if a == MinInt {
      WrapShift(-(a as int), -1);
    }
  }

  /** abs does not see the sign: abs(-a) == abs(a), with -a wrapped. */
  lemma AbsNegate(a: Int)
    ensures Abs(Wrap(-(a as int))) == Abs(a)
  {
    if a == MinInt {
      WrapShift(-(a as int), -1);
    }
  }

  /* pow */

  /** a to the n, in unbounded integers. */
  function Power(a: int, n: nat): int {
    if n == 0 then 1 else a * Power(a, n - 1)
  }

  lemma Assoc(a: int, b: int, c: int)
    ensures a * b * c == a * (b * c)
  {
  }

  /** Squaring the base halves the exponent. */
  lemma {:induction false} PowerSquare(a: int, m: nat)
    ensures Power(a * a, m) == Power(a, 2 * m)
  {
    if m > 0 {
      PowerSquare(a, m - 1);
      assert Power(a, 2 * m) == a * (a * Power(a, 2 * m - 2));
      Assoc(a, a, Power(a, 2 * m - 2));
    }
  }

  /** Wrapping the base first wraps the power. */
  lemma {:induction false} WrapPower(x: int, m: nat)
    ensures Wrap(Power(Wrap(x), m)) == Wrap(Power(x, m))
  {
    if m > 0 {
      var w, p, q := Wrap(x), Power(Wrap(x), m - 1), Power(x, m - 1);
      calc {
        Wrap(Power(w, m));
        { assert Power(w, m) == p * w; }
        Wrap(p * w);
        { WrapMul(p, w); }
        Wrap(Wrap(p) * w);
        { WrapPower(x, m - 1); }
        Wrap(Wrap(q) * w);
        { WrapMul(q, w); }
        Wrap(q * w);
        { assert q * w == w * q; }
        Wrap(w * q);
        { WrapMul(x, q); }
        Wrap(x * q);
      }
    }
  }

  lemma Swap(a: int, b: int, q: int)
    ensures (a * b) * q == (a * q) * b
  {
  }

  /** One odd round of pow's loop keeps a^n * b. */
  lemma StepOdd(a: int, b: int, m: nat)
    ensures Wrap(Power(Wrap(a * a), m) * Wrap(a * b)) == Wrap(Power(a, 2 * m + 1) * b)
  {
    var p, q, c := Power(Wrap(a * a), m), Power(a * a, m), Wrap(a * b);
    calc {
      Wrap(p * c);
      { WrapMul(p, c); }
      Wrap(Wrap(p) * c);
      { WrapPower(a * a, m); }
      Wrap(Wrap(q) * c);
      { WrapMul(q, c); }
      Wrap(q * c);
      { assert q * c == c * q; }
      Wrap(c * q);
      { WrapMul(a * b, q); }
      Wrap((a * b) * q);
      { Swap(a, b, q); }
      Wrap((a * q) * b);
      { PowerSquare(a, m); assert Power(a, 2 * m + 1) == a * Power(a, 2 * m); }
      Wrap(Power(a, 2 * m + 1) * b);
    }
  }

  /** One even round of pow's loop keeps a^n * b. */
  lemma StepEven(a: int, b: int, m: nat)
    ensures Wrap(Power(Wrap(a * a), m) * b) == Wrap(Power(a, 2 * m) * b)
  {
    var p, q := Power(Wrap(a * a), m), Power(a * a, m);
    calc {
      Wrap(p * b);
      { WrapMul(p, b); }
      Wrap(Wrap(p) * b);
      { WrapPower(a * a, m); }
      Wrap(Wrap(q) * b);
      { WrapMul(q, b); }
      Wrap(q * b);
      { PowerSquare(a, m); }
      Wrap(Power(a, 2 * m) * b);
    }
  }

  /** pow: square-and-multiply. pow(a, 0) is 1, pow(a, n) for n >= 1 is
      a^n wrapped into int, and a negative n skips the loop and gives a
      back. */
  method Pow(a0: Int, n0: Int) returns (r: Int)
    ensures n0 == 0 ==> r == 1
    ensures n0 >= 1 ==> r == Wrap(Power(a0, n0))
    ensures n0 < 0 ==> r == a0
  {
    if n0 == 0 {
      return 1;
    }
    var a, b: Int := a0, 1;
    var n: int := n0;
    while n > 1
      invariant n0 >= 1 ==> n >= 1 && Wrap(Power(a, n) * b) == Wrap(Power(a0, n0))
      invariant n0 < 0 ==> n == n0 && a == a0 && b == 1
      decreases n
    {
      var m: nat := n / 2;
      var square: Int := Wrap(a * a);
      if n % 2 == 1 {
        assert n == 2 * m + 1;
        StepOdd(a, b, m);
        b := Wrap(a * b);
      } else {
        assert n == 2 * m;
        StepEven(a, b, m);
      }
      a, n := square, m;
    }
    r := Wrap(a * b);
  }
}
