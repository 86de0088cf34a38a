/** The 128-bit unsigned integer of 2023/14/aoc14.go: a pair of 64-bit
    words, w0 the low one and w1 the high one, read as w1 * 2^64 + w0.
    Shifts follow Go: shifting a uint64 by 64 or more clears it, and a
    negative shift count panics, so the shifts ask for n >= 0. */
module Uint128 {
  import opened GoInt
  import opened Binary

  /** A Go uint64. */
  type Word = w: nat | w < Pow2(64)

  datatype U128 = U128(w0: Word, w1: Word)

  const Zero: U128 := U128(0, 0)

  /** The number the two words spell. */
  function Val(u: U128): nat {
    Digits(u.w1, u.w0, Pow2(64))
  }

  /** hi and lo as the two digits of a number in base p. */
  function Digits(hi: nat, lo: nat, p: nat): nat {
    hi * p + lo
  }

  /** Bit i of the 128 bits: w0's below 64, w1's from 64 up. */
  function At(u: U128, i: nat): (b: nat)
    ensures b < 2
  {
    if i < 64 then Bit(u.w0, i) else Bit(u.w1, i - 64)
  }

  /* Go's word operators. */

  function Shl(w: Word, k: nat): Word {
    Low(w * Pow2(k), 64)
  }

  function Shr(w: Word, k: nat): Word {
    ShiftLe(w, k);
    Shift(w, k)
  }

  function Word2(op: Op, a: Word, b: Word): Word {
    Bitwise(op, a, b, 64)
  }

  function WNot(w: Word): Word {
    Complement(w, 64)
  }

  lemma {:induction false} ShiftLe(x: nat, k: nat)
    ensures Shift(x, k) <= x
  {
    if k > 0 {
      ShiftLe(x / 2, k - 1);
    }
  }

  lemma WordHigh(w: Word, i: nat)
    requires i >= 64
    ensures Bit(w, i) == 0
  {
    BitHigh(w, 64, i);
  }

  lemma ShlBit(w: Word, k: nat, i: nat)
    requires i < 64
    ensures Bit(Shl(w, k), i) == if i < k then 0 else Bit(w, i - k)
  {
    BitMod(w * Pow2(k), 64, i);
    BitMul(w, k, i);
  }

  lemma ShrBit(w: Word, k: nat, i: nat)
    ensures Bit(Shr(w, k), i) == Bit(w, i + k)
  {
    BitShift(w, k, i);
  }

  lemma Word2Bit(op: Op, a: Word, b: Word, i: nat)
    requires i < 64
    ensures Bit(Word2(op, a, b), i) == Apply(op, Bit(a, i), Bit(b, i))
  {
    BitwiseBit(op, a, b, 64, i);
  }

  /* The bits and the value. */

  /** The bits At reads are the binary digits of the value. */
  lemma ValBit(u: U128, i: nat)
    ensures Bit(Val(u), i) == At(u, i)
  {
    BitSplit(u.w1, u.w0, 64, i);
  }

  lemma ValBound(u: U128)
    ensures Val(u) < Pow2(128)
  {
    Pow2Add(64, 64);
    Square(u.w1, u.w0, Pow2(64));
  }

  lemma Square(hi: nat, lo: nat, p: nat)
    requires hi < p && lo < p
    ensures hi * p + lo < p * p
  {
    MulLe(p, hi, p - 1);
    assert p * (p - 1) == p * p - p;
  }

  /** The value is zero only for the zero pair of words. */
  lemma ValZero(u: U128)
    ensures Val(u) == 0 <==> u == Zero
  {
    if u.w1 > 0 {
      MulLe(Pow2(64), 1, u.w1);
    }
  }

  /** From bit 128 up there is nothing. */
  lemma AtHigh(u: U128, j: nat)
    requires j >= 128
    ensures At(u, j) == 0
  {
    WordHigh(u.w1, j - 64);
  }

  lemma AtZero(i: nat)
    ensures At(Zero, i) == 0
  {
    if i < 64 {
      BitZero(i);
    } else {
      BitZero(i - 64);
    }
  }

  /** Two values with the same 128 bits are equal. */
  lemma SameBits(u: U128, v: U128)
    requires forall i :: 0 <= i < 128 ==> At(u, i) == At(v, i)
    ensures u == v
  {
    forall i | 0 <= i < 64 ensures Bit(u.w0, i) == Bit(v.w0, i) {
      assert At(u, i) == At(v, i);
    }
    forall i | 0 <= i < 64 ensures Bit(u.w1, i) == Bit(v.w1, i) {
      assert At(u, i + 64) == At(v, i + 64);
    }
    BitsEqual(u.w0, v.w0, 64);
    BitsEqual(u.w1, v.w1, 64);
  }

  /** A word with no one bit below 64 is zero. */
  lemma NoBits(w: Word)
    requires forall i :: 0 <= i < 64 ==> Bit(w, i) == 0
    ensures w == 0
  {
    forall i | 0 <= i < 64 ensures Bit(w, i) == Bit(0, i) {
      BitZero(i);
    }
    BitsEqual(w, 0, 64);
  }

  /* isZero */

  /** isZero: whether w1 | w0 is zero. */
  function IsZero(u: U128): bool {
    Word2(Or, u.w1, u.w0) == 0
  }

  /** w1 | w0 is zero only when both words are. */
  lemma OrZero(a: Word, b: Word)
    ensures Word2(Or, a, b) == 0 <==> a == 0 && b == 0
  {
    var o := Word2(Or, a, b);
    if o == 0 {
      forall i | 0 <= i < 64 ensures Bit(a, i) == 0 && Bit(b, i) == 0 {
        Word2Bit(Or, a, b, i);
        BitZero(i);
      }
      NoBits(a);
      NoBits(b);
    } else if a == 0 && b == 0 {
      forall i | 0 <= i < 64 ensures Bit(o, i) == 0 {
        Word2Bit(Or, a, b, i);
        BitZero(i);
      }
      NoBits(o);
    }
  }

  /** isZero holds exactly of the value zero. */
  lemma IsZeroVal(u: U128)
    ensures IsZero(u) <==> u == Zero
    ensures IsZero(u) <==> Val(u) == 0
  {
    ValZero(u);
    OrZero(u.w1, u.w0);
  }

  /* rsh and lsh */

  /** rsh: past 128 the value is zero; past 64 the high word moves down
      first; otherwise the bits the high word loses are carried into the
      low one. */
  function Rsh(u: U128, n: int): U128
    requires n >= 0
  {
    if n > 128 then Zero
    else if n > 64 then U128(Word2(Or, Shr(u.w1, n - 64), 0), 0)
    else U128(Word2(Or, Shr(u.w0, n), Shl(u.w1, 64 - n)), Shr(u.w1, n))
  }

  /** lsh: the mirror image of rsh. */
  function Lsh(u: U128, n: int): U128
    requires n >= 0
  {
    if n > 128 then Zero
    else if n > 64 then U128(0, Word2(Or, Shl(u.w0, n - 64), 0))
    else U128(Shl(u.w0, n), Word2(Or, Shl(u.w1, n), Shr(u.w0, 64 - n)))
  }

  lemma RshFarBit(u: U128, n: int, i: nat)
    requires n > 128 && i < 128
    ensures At(Rsh(u, n), i) == At(u, i + n)
  {
    assert Rsh(u, n) == Zero;
    AtZero(i);
    AtHigh(u, i + n);
  }

  lemma RshWideBit(u: U128, n: int, i: nat)
    requires 64 < n <= 128 && i < 128
    ensures At(Rsh(u, n), i) == At(u, i + n)
  {
    var hi := Shr(u.w1, n - 64);
    assert Rsh(u, n) == U128(Word2(Or, hi, 0), 0);
    if i < 64 {
      Word2Bit(Or, hi, 0, i);
      BitZero(i);
      ShrBit(u.w1, n - 64, i);
    } else {
      BitZero(i - 64);
      WordHigh(u.w1, i + n - 64);
    }
  }

  lemma RshNearBit(u: U128, n: int, i: nat)
    requires 0 <= n <= 64 && i < 128
    ensures At(Rsh(u, n), i) == At(u, i + n)
  {
    var lo, carry := Shr(u.w0, n), Shl(u.w1, 64 - n);
    assert Rsh(u, n) == U128(Word2(Or, lo, carry), Shr(u.w1, n));
    if i < 64 {
      Word2Bit(Or, lo, carry, i);
      ShrBit(u.w0, n, i);
      ShlBit(u.w1, 64 - n, i);
      if i + n >= 64 {
        WordHigh(u.w0, i + n);
      }
    } else {
      ShrBit(u.w1, n, i - 64);
    }
  }

  /** Bit i of rsh(n) is bit i + n. */
  lemma RshBit(u: U128, n: int, i: nat)
    requires n >= 0 && i < 128
    ensures At(Rsh(u, n), i) == At(u, i + n)
  {
    if n > 128 {
      RshFarBit(u, n, i);
    } else if n > 64 {
      RshWideBit(u, n, i);
    } else {
      RshNearBit(u, n, i);
    }
  }

  /** rsh(n) divides the value by 2^n. */
  lemma RshValue(u: U128, n: int)
    requires n >= 0
    ensures Val(Rsh(u, n)) == Shift(Val(u), n)
    ensures Val(Rsh(u, n)) == Val(u) / Pow2(n)
  {
    var r := Rsh(u, n);
    forall i | 0 <= i < 128 ensures Bit(Val(r), i) == Bit(Shift(Val(u), n), i) {
      ValBit(r, i);
      RshBit(u, n, i);
      ValBit(u, i + n);
      BitShift(Val(u), n, i);
    }
    ValBound(u);
    ValBound(r);
    ShiftLe(Val(u), n);
    BitsEqual(Val(r), Shift(Val(u), n), 128);
    ShiftDiv(Val(u), n);
  }

  /** Shifting right by 128 or more gives zero. */
  lemma RshFar(u: U128, n: int)
    requires n >= 128
    ensures Rsh(u, n) == Zero
  {
    forall i | 0 <= i < 128 ensures At(Rsh(u, n), i) == At(Zero, i) {
      RshBit(u, n, i);
      AtHigh(u, i + n);
      AtZero(i);
    }
    SameBits(Rsh(u, n), Zero);
  }

  lemma LshWideBit(u: U128, n: int, i: nat)
    requires 64 < n <= 128 && i < 128
    ensures At(Lsh(u, n), i) == if i < n then 0 else At(u, i - n)
  {
    var hi := Shl(u.w0, n - 64);
    assert Lsh(u, n) == U128(0, Word2(Or, hi, 0));
    if i < 64 {
      BitZero(i);
    } else {
      Word2Bit(Or, hi, 0, i - 64);
      BitZero(i - 64);
      ShlBit(u.w0, n - 64, i - 64);
    }
  }

  lemma LshNearBit(u: U128, n: int, i: nat)
    requires 0 <= n <= 64 && i < 128
    ensures At(Lsh(u, n), i) == if i < n then 0 else At(u, i - n)
  {
    var hi, carry := Shl(u.w1, n), Shr(u.w0, 64 - n);
    assert Lsh(u, n) == U128(Shl(u.w0, n), Word2(Or, hi, carry));
    if i < 64 {
      ShlBit(u.w0, n, i);
    } else {
      var j := i - 64;
      Word2Bit(Or, hi, carry, j);
      ShlBit(u.w1, n, j);
      ShrBit(u.w0, 64 - n, j);
      if j >= n {
        WordHigh(u.w0, j + 64 - n);
      }
    }
  }

  /** Bit i of lsh(n) is bit i - n, and zero below n. */
  lemma LshBit(u: U128, n: int, i: nat)
    requires n >= 0 && i < 128
    ensures At(Lsh(u, n), i) == if i < n then 0 else At(u, i - n)
  {
    if n > 128 {
      assert Lsh(u, n) == Zero;
      AtZero(i);
    } else if n > 64 {
      LshWideBit(u, n, i);
    } else {
      LshNearBit(u, n, i);
    }
  }

  /** lsh(n) multiplies the value by 2^n, modulo 2^128. */
  lemma LshValue(u: U128, n: int)
    requires n >= 0
    ensures Val(Lsh(u, n)) == Low(Val(u) * Pow2(n), 128)
    ensures Val(Lsh(u, n)) == (Val(u) * Pow2(n)) % Pow2(128)
  {
    var r := Lsh(u, n);
    var v, p := Val(u), Pow2(n);
    MulLe(v, 0, p);
    var x: nat := v * p;
    forall i | 0 <= i < 128 ensures Bit(Val(r), i) == Bit(Low(x, 128), i) {
      ValBit(r, i);
      LshBit(u, n, i);
      if i >= n {
        ValBit(u, i - n);
      }
      BitMod(x, 128, i);
      BitMul(v, n, i);
    }
    ValBound(r);
    BitsEqual(Val(r), Low(x, 128), 128);
    LowMod(x, 128);
  }

  /** Shifting left by 128 or more gives zero. */
  lemma LshFar(u: U128, n: int)
    requires n >= 128
    ensures Lsh(u, n) == Zero
  {
    forall i | 0 <= i < 128 ensures At(Lsh(u, n), i) == At(Zero, i) {
      LshBit(u, n, i);
      AtZero(i);
    }
    SameBits(Lsh(u, n), Zero);
  }

  /* get, set and clear */

  /** get: the lowest bit of rsh(n), as Go's `& 1`. */
  function Get(u: U128, n: int): nat
    requires n >= 0
  {
    Rsh(u, n).w0 % 2
  }

  /** get(n) is bit n of the value, zero from 128 up. */
  lemma GetBit(u: U128, n: int)
    requires n >= 0
    ensures Get(u, n) == At(u, n)
    ensures Get(u, n) == Bit(Val(u), n)
    ensures n >= 128 ==> Get(u, n) == 0
  {
    RshBit(u, n, 0);
    ValBit(u, n);
    if n >= 128 {
      AtHigh(u, n);
    }
  }

  /** The mask 1 << (n & 0x3f); n & 0x3f is n mod 64 for every int. */
  function Mask(n: int): Word {
    Shl(1, n % 64)
  }

  lemma MaskBit(n: int, i: nat)
    requires i < 64
    ensures Bit(Mask(n), i) == if i == n % 64 then 1 else 0
  {
    ShlBit(1, n % 64, i);
    if i >= n % 64 {
      BitPow2(0, i - n % 64);
    }
  }

  /** set: or the mask into the word n >> 6 names (Go's >> on an int is a
      floor division); any other n changes nothing. */
  function Set(u: U128, n: int): U128 {
    if n / 64 == 1 then u.(w1 := Word2(Or, u.w1, Mask(n)))
    else if n / 64 == 0 then u.(w0 := Word2(Or, u.w0, Mask(n)))
    else u
  }

  /** clear: and the complement of the mask into that word. */
  function Clear(u: U128, n: int): U128 {
    if n / 64 == 1 then u.(w1 := Word2(And, u.w1, WNot(Mask(n))))
    else if n / 64 == 0 then u.(w0 := Word2(And, u.w0, WNot(Mask(n))))
    else u
  }

  /** set(n) turns bit n on and leaves every other bit; outside 0..127 it
      is a no-op. */
  lemma SetBit(u: U128, n: int, i: nat)
    requires i < 128
    ensures At(Set(u, n), i) == if i == n then 1 else At(u, i)
    ensures (n < 0 || n >= 128) ==> Set(u, n) == u
  {
    if 0 <= n < 64 && i < 64 {
      Word2Bit(Or, u.w0, Mask(n), i);
      MaskBit(n, i);
    } else if 64 <= n < 128 && i >= 64 {
      Word2Bit(Or, u.w1, Mask(n), i - 64);
      MaskBit(n, i - 64);
    }
  }

  /** clear(n) turns bit n off and leaves every other bit. */
  lemma ClearBit(u: U128, n: int, i: nat)
    requires i < 128
    ensures At(Clear(u, n), i) == if i == n then 0 else At(u, i)
    ensures (n < 0 || n >= 128) ==> Clear(u, n) == u
  {
    if 0 <= n < 64 && i < 64 {
      Word2Bit(And, u.w0, WNot(Mask(n)), i);
      ComplementBit(Mask(n), 64, i);
      MaskBit(n, i);
    } else if 64 <= n < 128 && i >= 64 {
      Word2Bit(And, u.w1, WNot(Mask(n)), i - 64);
      ComplementBit(Mask(n), 64, i - 64);
      MaskBit(n, i - 64);
    }
  }

  /** After set(n), get(n) is 1 and every other get is unchanged. */
  lemma SetGet(u: U128, n: int, m: int)
    requires 0 <= m
    ensures Get(Set(u, n), m) == if m == n && n < 128 then 1 else Get(u, m)
  {
    GetBit(u, m);
    GetBit(Set(u, n), m);
    if m < 128 {
      SetBit(u, n, m);
    }
  }

  /** After clear(n), get(n) is 0 and every other get is unchanged. */
  lemma ClearGet(u: U128, n: int, m: int)
    requires 0 <= m
    ensures Get(Clear(u, n), m) == if m == n then 0 else Get(u, m)
  {
    GetBit(u, m);
    GetBit(Clear(u, n), m);
    if m < 128 {
      ClearBit(u, n, m);
    }
  }

  /* popcnt, lead0, trail0 */

  /** The number of one bits of x below bit k. */
  function Count(x: nat, k: nat): (r: nat)
    ensures r <= k
  {
    if k == 0 then 0 else Count(x, k - 1) + Bit(x, k - 1)
  }

  /** popcnt: bits.OnesCount64 of each word, added. */
  function Popcnt(u: U128): nat {
    Count(u.w1, 64) + Count(u.w0, 64)
  }

  /** Counts agree on numbers whose bits agree below k. */
  lemma {:induction false} CountSame(x: nat, y: nat, k: nat)
    requires forall i :: 0 <= i < k ==> Bit(x, i) == Bit(y, i)
    ensures Count(x, k) == Count(y, k)
  {
    if k > 0 {
      CountSame(x, y, k - 1);
    }
  }

  /** Counting the value's bits past 64 starts from the whole low word. */
  lemma {:induction false} CountHigh(u: U128, j: nat)
    requires j <= 64
    ensures Count(Val(u), 64 + j) == Count(u.w0, 64) + Count(u.w1, j)
  {
    if j == 0 {
      forall i | 0 <= i < 64 ensures Bit(Val(u), i) == Bit(u.w0, i) {
        ValBit(u, i);
      }
      CountSame(Val(u), u.w0, 64);
    } else {
      CountHigh(u, j - 1);
      ValBit(u, 64 + j - 1);
    }
  }

  /** popcnt counts the one bits of the whole 128-bit value. */
  lemma PopcntCount(u: U128)
    ensures Popcnt(u) == Count(Val(u), 128)
  {
    CountHigh(u, 64);
  }

  /** No one bit below k exactly when the count is zero. */
  lemma {:induction false} CountZero(x: nat, k: nat)
    ensures Count(x, k) == 0 <==> forall i :: 0 <= i < k ==> Bit(x, i) == 0
  {
    if k > 0 {
      CountZero(x, k - 1);
      assert Count(x, k) == Count(x, k - 1) + Bit(x, k - 1);
      if Count(x, k) == 0 {
        forall i | 0 <= i < k ensures Bit(x, i) == 0 {
          if i < k - 1 {
            assert Count(x, k - 1) == 0;
          }
        }
      }
    }
  }

  /** popcnt is zero only for the value zero. */
  lemma PopcntZero(u: U128)
    ensures Popcnt(u) == 0 <==> u == Zero
  {
    CountZero(u.w0, 64);
    CountZero(u.w1, 64);
    if Popcnt(u) == 0 {
      NoBits(u.w0);
      NoBits(u.w1);
    } else if u == Zero {
      forall i | 0 <= i < 64 ensures Bit(0, i) == 0 {
        BitZero(i);
      }
    }
  }

  /** bits.LeadingZeros64 over k bits: the zero bits above the highest
      one bit, k for zero. */
  function Lz(w: nat, k: nat): (r: nat)
    ensures r <= k
    ensures forall j :: k - r <= j < k ==> Bit(w, j) == 0
    ensures r < k ==> Bit(w, k - 1 - r) == 1
  {
    if k == 0 then 0 else if Bit(w, k - 1) == 1 then 0 else 1 + Lz(w, k - 1)
  }

  /** bits.TrailingZeros64 over bits j to k: the zero bits below the
      lowest one bit. */
  function Tz(w: nat, j: nat, k: nat): (r: nat)
    requires j <= k
    ensures j + r <= k
    ensures forall i :: j <= i < j + r ==> Bit(w, i) == 0
    ensures j + r < k ==> Bit(w, j + r) == 1
    decreases k - j
  {
    if j == k then 0 else if Bit(w, j) == 1 then 0 else 1 + Tz(w, j + 1, k)
  }

  /** lead0: the high word's leading zeros, and when it is all zero the
      low word's added. */
  function Lead0(u: U128): nat {
    var n := Lz(u.w1, 64);
    if n != 64 then n else n + Lz(u.w0, 64)
  }

  /** trail0: the low word's trailing zeros, and when it is all zero the
      high word's added. */
  function Trail0(u: U128): nat {
    var n := Tz(u.w0, 0, 64);
    if n != 64 then n else n + Tz(u.w1, 0, 64)
  }

  /** lead0 counts the zero bits above the highest one bit. */
  lemma Lead0Bits(u: U128)
    ensures Lead0(u) <= 128
    ensures forall j :: 128 - Lead0(u) <= j < 128 ==> At(u, j) == 0
    ensures Lead0(u) < 128 ==> At(u, 127 - Lead0(u)) == 1
  {
    var r := Lead0(u);
    forall j | 128 - r <= j < 128 ensures At(u, j) == 0 {
      if j < 64 {
        assert 64 - Lz(u.w0, 64) <= j;
      }
    }
  }

  /** trail0 counts the zero bits below the lowest one bit. */
  lemma Trail0Bits(u: U128)
    ensures Trail0(u) <= 128
    ensures forall j :: 0 <= j < Trail0(u) ==> At(u, j) == 0
    ensures Trail0(u) < 128 ==> At(u, Trail0(u)) == 1
  {
    var r := Trail0(u);
    forall j | 0 <= j < r ensures At(u, j) == 0 {
      if j >= 64 {
        assert 0 <= j - 64 < Tz(u.w1, 0, 64);
      }
    }
  }

  /** Both counts are 128 exactly for zero. */
  lemma ZerosOfZero(u: U128)
    ensures Lead0(u) == 128 <==> u == Zero
    ensures Trail0(u) == 128 <==> u == Zero
  {
    Lead0Bits(u);
    Trail0Bits(u);
    if Lead0(u) == 128 || Trail0(u) == 128 {
      forall i | 0 <= i < 128 ensures At(u, i) == At(Zero, i) {
        AtZero(i);
      }
      SameBits(u, Zero);
    }
    if u == Zero && Lead0(u) < 128 {
      AtZero(127 - Lead0(u));
    }
    if u == Zero && Trail0(u) < 128 {
      AtZero(Trail0(u));
    }
  }

  /* reverse */

  /** bits.Reverse64 over k bits. */
  function Rev(w: nat, k: nat): (r: nat)
    ensures r < Pow2(k)
  {
    if k == 0 then 0 else (w % 2) * Pow2(k - 1) + Rev(w / 2, k - 1)
  }

  lemma {:induction false} RevBit(w: nat, k: nat, i: nat)
    ensures Bit(Rev(w, k), i) == if i < k then Bit(w, k - 1 - i) else 0
  {
    if k == 0 {
      BitZero(i);
    } else {
      BitSplit(w % 2, Rev(w / 2, k - 1), k - 1, i);
      if i < k - 1 {
        RevBit(w / 2, k - 1, i);
        BitHalf(w, k - 2 - i);
      } else if i >= k {
        BitHigh(w % 2, 1, i - (k - 1));
      }
    }
  }

  /** reverse: each word reversed, and the two swapped. */
  function Reverse(u: U128): U128 {
    U128(Rev(u.w1, 64), Rev(u.w0, 64))
  }

  /** reverse mirrors the 128 bits. */
  lemma ReverseBit(u: U128, i: nat)
    requires i < 128
    ensures At(Reverse(u), i) == At(u, 127 - i)
  {
    if i < 64 {
      RevBit(u.w1, 64, i);
    } else {
      RevBit(u.w0, 64, i - 64);
    }
  }

  /** reverse twice gives the value back. */
  lemma ReverseTwice(u: U128)
    ensures Reverse(Reverse(u)) == u
  {
    forall i | 0 <= i < 128 ensures At(Reverse(Reverse(u)), i) == At(u, i) {
      ReverseBit(Reverse(u), i);
      ReverseBit(u, 127 - i);
    }
    SameBits(Reverse(Reverse(u)), u);
  }

  /* not, and, or, xor */

  /** not: both words complemented. */
  function Not(u: U128): U128 {
    U128(WNot(u.w0), WNot(u.w1))
  }

  lemma NotBit(u: U128, i: nat)
    requires i < 128
    ensures At(Not(u), i) == 1 - At(u, i)
  {
    if i < 64 {
      ComplementBit(u.w0, 64, i);
    } else {
      ComplementBit(u.w1, 64, i - 64);
    }
  }

  /** not is an involution. */
  lemma NotNot(u: U128)
    ensures Not(Not(u)) == u
  {
    forall i | 0 <= i < 128 ensures At(Not(Not(u)), i) == At(u, i) {
      NotBit(Not(u), i);
      NotBit(u, i);
    }
    SameBits(Not(Not(u)), u);
  }

  /** One step of and, or or xor: the operator on each word. */
  function Both(op: Op, u: U128, v: U128): U128 {
    U128(Word2(op, u.w0, v.w0), Word2(op, u.w1, v.w1))
  }

  /** The operator acts on every one of the 128 bits. */
  lemma BothBit(op: Op, u: U128, v: U128, i: nat)
    requires i < 128
    ensures At(Both(op, u, v), i) == Apply(op, At(u, i), At(v, i))
  {
    if i < 64 {
      Word2Bit(op, u.w0, v.w0, i);
    } else {
      Word2Bit(op, u.w1, v.w1, i - 64);
    }
  }

  /** The variadic and, or and xor: u combined with m[0], m[1], ... in
      turn. */
  function Fold(op: Op, u: U128, m: seq<U128>): U128
    decreases |m|
  {
    if m == [] then u else Fold(op, Both(op, u, m[0]), m[1..])
  }

  /** and: a bit is on when it is on in u and in every m[j]. */
  lemma {:induction false} FoldAnd(u: U128, m: seq<U128>, i: nat)
    requires i < 128
    ensures At(Fold(And, u, m), i) == 1 <==>
      At(u, i) == 1 && forall j :: 0 <= j < |m| ==> At(m[j], i) == 1
    decreases |m|
  {
    if m != [] {
      BothBit(And, u, m[0], i);
      FoldAnd(Both(And, u, m[0]), m[1..], i);
      assert forall j :: 1 <= j < |m| ==> m[j] == m[1..][j - 1];
    }
  }

  /** or: a bit is on when it is on in u or in some m[j]. */
  lemma {:induction false} FoldOr(u: U128, m: seq<U128>, i: nat)
    requires i < 128
    ensures At(Fold(Or, u, m), i) == 1 <==>
      At(u, i) == 1 || exists j :: 0 <= j < |m| && At(m[j], i) == 1
    decreases |m|
  {
    if m != [] {
      BothBit(Or, u, m[0], i);
      FoldOr(Both(Or, u, m[0]), m[1..], i);
      assert forall j :: 1 <= j < |m| ==> m[j] == m[1..][j - 1];
      if exists j :: 0 <= j < |m| && At(m[j], i) == 1 {
        var j :| 0 <= j < |m| && At(m[j], i) == 1;
        if j > 0 {
          assert At(m[1..][j - 1], i) == 1;
        }
      }
    }
  }

  /** How many of the values have bit i on. */
  function Column(m: seq<U128>, i: nat): nat {
    if m == [] then 0 else At(m[0], i) + Column(m[1..], i)
  }

  lemma Parity(a: nat, b: nat, c: nat)
    requires a < 2 && b < 2
    ensures (Apply(Xor, a, b) + c) % 2 == (a + b + c) % 2
  {
  }

  /** xor: a bit is on when an odd number of u and the m[j] have it. */
  lemma {:induction false} FoldXor(u: U128, m: seq<U128>, i: nat)
    requires i < 128
    ensures At(Fold(Xor, u, m), i) == (At(u, i) + Column(m, i)) % 2
    decreases |m|
  {
    if m != [] {
      BothBit(Xor, u, m[0], i);
      FoldXor(Both(Xor, u, m[0]), m[1..], i);
      Parity(At(u, i), At(m[0], i), Column(m[1..], i));
    }
  }
}
