/** Go's integer arithmetic where it differs from Dafny's: `/` and `%`
    truncate toward zero, and fixed-width unsigned arithmetic wraps. */
module GoInt {
  /** Absolute value. */
  function Abs(a: int): (r: nat)
    ensures r == a || r == -a
  {
    if a < 0 then -a else a
  }

  /** Euclidean division of naturals, characterised by its bounds. */
  function Div(n: nat, m: nat): (d: nat)
    requires m > 0
    ensures m * d <= n < m * d + m
  {
    n / m
  }

  /** Go's `a / b`: the quotient rounded toward zero. */
  function Quo(a: int, b: int): (q: int)
    requires b != 0
    ensures Abs(q) == Div(Abs(a), Abs(b))
    ensures q == 0 || (q > 0 <==> (a > 0) == (b > 0))
  {
    if (a >= 0) == (b > 0) then Div(Abs(a), Abs(b)) else -(Div(Abs(a), Abs(b)) as int)
  }

  /** Go's `a % b`: the remainder that goes with Quo, so its sign is a's. */
  function Rem(a: int, b: int): (r: int)
    requires b != 0
    ensures a == b * Quo(a, b) + r
    ensures Abs(r) < Abs(b)
    ensures r == 0 || (r > 0 <==> a > 0)
  {
    QuoTimes(a, b);
    a - b * Quo(a, b)
  }

  /** b * Quo(a, b) is the multiple of b next to a on zero's side. */
  lemma QuoTimes(a: int, b: int)
    requires b != 0
    ensures var p := Abs(b) * Div(Abs(a), Abs(b));
      (a >= 0 ==> b * Quo(a, b) == p) && (a < 0 ==> b * Quo(a, b) == -p)
  {
    var m: int, Q: int := Abs(b), Div(Abs(a), Abs(b));
    if b > 0 {
      if a < 0 {
        assert b * Quo(a, b) == m * (-Q) == -(m * Q);
      }
    } else {
      if a >= 0 {
        assert b * Quo(a, b) == (-m) * (-Q) == m * Q;
      } else {
        assert b * Quo(a, b) == (-m) * Q == -(m * Q);
      }
    }
  }

  /** Truncation agrees with Dafny's Euclidean division on non-negative
      dividends and positive divisors. */
  lemma QuoNonNegative(a: int, b: int)
    requires a >= 0 && b > 0
    ensures Quo(a, b) == a / b && Rem(a, b) == a % b
  {
    assert Quo(a, b) == a / b;
  }

  /** Euclidean division is the only split of a into a multiple of b and
      a remainder in [0, b). */
  lemma ModUnique(a: int, b: int, q: int, r: int)
    requires b > 0 && a == b * q + r && 0 <= r < b
    ensures q == a / b && r == a % b
  {
    var k := q - a / b;
    assert b * k == a % b - r by {
      assert b * q - b * (a / b) == b * k;
    }
  }

  /** Go's remainder, moved up by b when negative, is the Euclidean one. */
  lemma RemEuclidean(a: int, b: int)
    requires b != 0
    ensures b > 0 && Rem(a, b) >= 0 ==> Rem(a, b) == a % b
    ensures b > 0 && Rem(a, b) < 0 ==> Rem(a, b) + b == a % b
  {
    var q, r := Quo(a, b), Rem(a, b);
    if b < 0 {
    } else if r >= 0 {
      ModUnique(a, b, q, r);
    } else {
      assert a == b * (q - 1) + (r + b) by {
        assert b * (q - 1) == b * q - b;
      }
      ModUnique(a, b, q - 1, r + b);
    }
  }

  const Pow32: int := 0x1_0000_0000
  const Pow64: int := 0x1_0000_0000_0000_0000

  /** A value reduced to uint32, as Go's unsigned arithmetic does. */
  function U32(x: int): (r: nat)
    ensures r < Pow32 && (x - r) % Pow32 == 0
  {
    x % Pow32
  }

  /** A value reduced to uint64. */
  function U64(x: int): (r: nat)
    ensures r < Pow64 && (x - r) % Pow64 == 0
  {
    x % Pow64
  }
}
