/** Non-negative integers read as strings of bits, and Go's bitwise
    operators on them: bit i of x is the lowest bit of x halved i times,
    and `&`, `|`, `^` combine two numbers bit by bit over a fixed width. */
module Binary {
  import opened GoInt

  function Pow2(k: nat): (r: nat)
    ensures r >= 1
  {
    if k == 0 then 1 else 2 * Pow2(k - 1)
  }

  lemma {:induction false} Pow2Add(a: nat, b: nat)
    ensures Pow2(a + b) == Pow2(a) * Pow2(b)
  {
    if a > 0 {
      Pow2Add(a - 1, b);
      assert Pow2(a + b) == 2 * Pow2(a - 1 + b);
    }
  }

  /** A smaller power of two divides a larger one. */
  lemma Pow2Divides(a: nat, b: nat)
    requires a <= b
    ensures Pow2(a) <= Pow2(b) && Pow2(b) == Pow2(a) * Pow2(b - a)
  {
    Pow2Add(a, b - a);
  }

  lemma Pow2Eight()
    ensures Pow2(8) == 256
  {
    assert Pow2(1) == 2;
    assert Pow2(2) == 4;
    assert Pow2(3) == 8;
    assert Pow2(4) == 16;
    assert Pow2(5) == 32;
    assert Pow2(6) == 64;
    assert Pow2(7) == 128;
  }

  /** The widths used below. */
  lemma Pow2Values()
    ensures Pow2(64) == Pow64
    ensures Pow2(5) == 32 && Pow2(6) == 64 && Pow2(11) == 2048
    ensures Pow2(20) == 0x10_0000 && Pow2(24) == 0x100_0000
  {
    Pow2Eight();
    Pow2Add(8, 8);
    Pow2Add(16, 16);
    Pow2Add(32, 32);
    Pow2Add(16, 4);
    Pow2Add(16, 8);
    Pow2Add(8, 3);
    assert Pow2(4) == 16;
  }

  /** x >> k: x halved k times. */
  function Shift(x: nat, k: nat): nat {
    if k == 0 then x else Shift(x / 2, k - 1)
  }

  /** x & (2^k - 1): the k low bits of x. */
  function Low(x: nat, k: nat): (r: nat)
    ensures r < Pow2(k)
  {
    if k == 0 then 0 else x % 2 + 2 * Low(x / 2, k - 1)
  }

  /** Bit i of x. */
  function Bit(x: nat, i: nat): (b: nat)
    ensures b < 2
  {
    if i == 0 then x % 2 else Bit(x / 2, i - 1)
  }

  /** Quotient and remainder of a division by p > 0. */
  lemma Parts(x: nat, p: nat) returns (q: nat, r: nat)
    requires p > 0
    ensures x == q * p + r && r < p && r == x % p && q == x / p
  {
    q, r := x / p, x % p;
  }

  lemma MulLe(a: nat, b: nat, c: nat)
    requires b <= c
    ensures a * b <= a * c
  {
    assert a * c == a * b + a * (c - b);
  }

  /** Shifting by k divides by 2^k. */
  lemma {:induction false} ShiftDiv(x: nat, k: nat)
    ensures Shift(x, k) == x / Pow2(k)
  {
    if k > 0 {
      ShiftDiv(x / 2, k - 1);
      var p := Pow2(k - 1);
      var q, r := Parts(x / 2, p);
      assert x == (q * p) * 2 + (r * 2 + x % 2);
      assert q * p * 2 == q * (2 * p);
      ModUnique(x, 2 * p, q, r * 2 + x % 2);
    }
  }

  /** The low bits are the remainder by 2^k. */
  lemma {:induction false} LowMod(x: nat, k: nat)
    ensures Low(x, k) == x % Pow2(k)
  {
    if k > 0 {
      LowMod(x / 2, k - 1);
      var p := Pow2(k - 1);
      var q, r := Parts(x / 2, p);
      assert x == (q * p) * 2 + (r * 2 + x % 2);
      assert q * p * 2 == q * (2 * p);
      ModUnique(x, 2 * p, q, r * 2 + x % 2);
    }
  }

  lemma {:induction false} BitZero(i: nat)
    ensures Bit(0, i) == 0
  {
    if i > 0 {
      BitZero(i - 1);
    }
  }

  /** Bits of x >> k are x's bits from k up. */
  lemma {:induction false} BitShift(x: nat, k: nat, i: nat)
    ensures Bit(Shift(x, k), i) == Bit(x, i + k)
  {
    if k > 0 {
      BitShift(x / 2, k - 1, i);
      assert Bit(x, i + k) == Bit(x / 2, i + k - 1);
    }
  }

  /** The lowest bit and the rest. */
  lemma BitHalf(x: nat, i: nat)
    ensures Bit(x, 0) == x % 2
    ensures Bit(x / 2, i) == Bit(x, i + 1)
  {
  }

  /** Numbers below 2^k with the same k low bits are equal. */
  lemma {:induction false} BitsEqual(x: nat, y: nat, k: nat)
    requires x < Pow2(k) && y < Pow2(k)
    requires forall i :: 0 <= i < k ==> Bit(x, i) == Bit(y, i)
    ensures x == y
  {
    if k > 0 {
      assert Bit(x, 0) == Bit(y, 0);
      forall i | 0 <= i < k - 1 ensures Bit(x / 2, i) == Bit(y / 2, i) {
        assert Bit(x, i + 1) == Bit(y, i + 1);
      }
      BitsEqual(x / 2, y / 2, k - 1);
    }
  }

  /** Below 2^k, every bit from k up is zero. */
  lemma {:induction false} BitHigh(x: nat, k: nat, i: nat)
    requires x < Pow2(k) && i >= k
    ensures Bit(x, i) == 0
  {
    if k == 0 {
      BitZero(i);
    } else {
      BitHigh(x / 2, k - 1, i - 1);
    }
  }

  /** (2m + lo) halved is m plus lo halved. */
  lemma Halve(m: int, lo: nat)
    ensures (2 * m + lo) / 2 == m + lo / 2 && (2 * m + lo) % 2 == lo % 2
  {
  }

  /** The bits of hi * 2^k + lo: lo's below k, hi's from k up. */
  lemma {:induction false} BitSplit(hi: nat, lo: nat, k: nat, i: nat)
    requires lo < Pow2(k)
    ensures Bit(hi * Pow2(k) + lo, i) == if i < k then Bit(lo, i) else Bit(hi, i - k)
  {
    if k > 0 {
      var m := hi * Pow2(k - 1);
      assert hi * Pow2(k) == 2 * m;
      Halve(m, lo);
      if i > 0 {
        BitSplit(hi, lo / 2, k - 1, i - 1);
      }
    }
  }

  /** Shifting hi * 2^k + lo right by k leaves hi. */
  lemma {:induction false} ShiftSplit(hi: nat, lo: nat, k: nat)
    requires lo < Pow2(k)
    ensures Shift(hi * Pow2(k) + lo, k) == hi
  {
    if k > 0 {
      var m := hi * Pow2(k - 1);
      assert hi * Pow2(k) == 2 * m;
      Halve(m, lo);
      ShiftSplit(hi, lo / 2, k - 1);
    }
  }

  /** The k low bits keep x's bits below k. */
  lemma {:induction false} BitMod(x: nat, k: nat, i: nat)
    ensures Bit(Low(x, k), i) == if i < k then Bit(x, i) else 0
  {
    if k == 0 {
      BitZero(i);
    } else {
      var rest := Low(x / 2, k - 1);
      Halve(rest, x % 2);
      if i > 0 {
        BitMod(x / 2, k - 1, i - 1);
      }
    }
  }

  /** x * 2^k moves x's bits up by k. */
  lemma BitMul(x: nat, k: nat, i: nat)
    ensures Bit(x * Pow2(k), i) == if i < k then 0 else Bit(x, i - k)
  {
    BitSplit(x, 0, k, i);
    BitZero(i);
  }

  /** Bit k of 2^j: one exactly at j. */
  lemma {:induction false} BitPow2(j: nat, k: nat)
    ensures Bit(Pow2(j), k) == if j == k then 1 else 0
  {
    if j == 0 {
      if k > 0 {
        BitZero(k - 1);
      }
    } else if k > 0 {
      BitPow2(j - 1, k - 1);
    }
  }

  /** The bitwise operators Go applies to whole words. */
  datatype Op = And | Or | Xor

  function Apply(op: Op, a: nat, b: nat): nat
    requires a < 2 && b < 2
  {
    match op
    case And => if a == 1 && b == 1 then 1 else 0
    case Or => if a == 1 || b == 1 then 1 else 0
    case Xor => if a != b then 1 else 0
  }

  /** a op b over the k low bits, from the lowest up. */
  function Bitwise(op: Op, a: nat, b: nat, k: nat): (r: nat)
    ensures r < Pow2(k)
  {
    if k == 0 then 0 else Apply(op, a % 2, b % 2) + 2 * Bitwise(op, a / 2, b / 2, k - 1)
  }

  /** Each of the k low bits of a op b is op of the operands' bits; the
      rest are zero. */
  lemma {:induction false} BitwiseBit(op: Op, a: nat, b: nat, k: nat, i: nat)
    ensures Bit(Bitwise(op, a, b, k), i) == if i < k then Apply(op, Bit(a, i), Bit(b, i)) else 0
  {
    if k == 0 {
      BitZero(i);
    } else {
      var rest := Bitwise(op, a / 2, b / 2, k - 1);
      Halve(rest, Apply(op, a % 2, b % 2));
      if i > 0 {
        BitwiseBit(op, a / 2, b / 2, k - 1, i - 1);
      }
    }
  }

  /** Go's ^x on a k-bit word: every one of the k bits flipped. */
  function Complement(x: nat, k: nat): (r: nat)
    ensures r < Pow2(k)
  {
    if k == 0 then 0 else (1 - x % 2) + 2 * Complement(x / 2, k - 1)
  }

  lemma {:induction false} ComplementBit(x: nat, k: nat, i: nat)
    ensures Bit(Complement(x, k), i) == if i < k then 1 - Bit(x, i) else 0
  {
    if k == 0 {
      BitZero(i);
    } else {
      var rest := Complement(x / 2, k - 1);
      Halve(rest, 1 - x % 2);
      if i > 0 {
        ComplementBit(x / 2, k - 1, i - 1);
      }
    }
  }
}
