/** Camel Cards (2023/7/aoc7.go): a hand of five cards is packed into one
    Go int. From the top, bits 21 to 23 hold the kind k (1 high card, 2 one
    pair, 3 three of a kind, 4 four of a kind), bit 20 the flag x that
    raises a kind to the next one (two pair, full house, five of a kind),
    and the four bits from 16 - 4i up the rank of card i. Comparing hands
    is subtracting their ints. In Joker mode a J ranks lowest and joins
    the largest group of the other cards. */
module Camel {
  /** Go's int. */
  type GoInt = k: int | -0x8000_0000_0000_0000 <= k < 0x8000_0000_0000_0000

  /** A hand, as the 64 bits of its Go int. */
  type Hand = bv64

  /** A bit field: mask, shifted left by n. */
  datatype Field = Field(n: bv64, mask: bv64)

  const K := Field(0x15, 0x7)
  const X := Field(0x14, 0x1)

  /** field{16 - (i << 2), 0x7}: the field of card i. Its mask is three
      bits wide although ranks reach 13; see CardMaskShort. */
  function CardField(i: int): Field
    requires 0 <= i < 5
  {
    if i == 0 then C0 else if i == 1 then C1 else if i == 2 then C2 else if i == 3 then C3 else C4
  }

  const C0 := Field(16, 0x7)
  const C1 := Field(12, 0x7)
  const C2 := Field(8, 0x7)
  const C3 := Field(4, 0x7)
  const C4 := Field(0, 0x7)

  /** The bits of a Go int: two's complement, digit by digit. */
  function Word(k: GoInt): bv64 {
    Hex(if k >= 0 then k else k + 0x1_0000_0000_0000_0000, 16)
  }

  /** The low n hex digits of u, as bits. */
  function Hex(u: nat, n: nat): bv64 {
    if n == 0 then 0 else Nibble(u % 16) | (Hex(u / 16, n - 1) << 4)
  }

  /** The value of a hex digit: its four bits. */
  function Digit(w: bv64): int
    requires w < 16
  {
    (if w & 8 == 0 then 0 else 8) + (if w & 4 == 0 then 0 else 4) + (if w & 2 == 0 then 0 else 2) +
    (if w & 1 == 0 then 0 else 1)
  }

  /** The hex digit of h at 16^i. */
  function Nib(h: bv64, i: nat): (w: bv64)
    requires i < 16
    ensures w < 16
  {
    if i == 0 then h & 0xF else if i == 1 then (h >> 4) & 0xF else if i == 2 then (h >> 8) & 0xF
    else if i == 3 then (h >> 12) & 0xF else if i == 4 then (h >> 16) & 0xF
    else if i == 5 then (h >> 20) & 0xF else if i == 6 then (h >> 24) & 0xF
    else if i == 7 then (h >> 28) & 0xF else if i == 8 then (h >> 32) & 0xF
    else if i == 9 then (h >> 36) & 0xF else if i == 10 then (h >> 40) & 0xF
    else if i == 11 then (h >> 44) & 0xF else if i == 12 then (h >> 48) & 0xF
    else if i == 13 then (h >> 52) & 0xF else if i == 14 then (h >> 56) & 0xF else (h >> 60) & 0xF
  }

  /** The unsigned value of 64 bits: its sixteen hex digits. */
  function Unsigned(h: bv64): int {
    Digit(Nib(h, 15)) * 0x1000_0000_0000_0000 + Digit(Nib(h, 14)) * 0x100_0000_0000_0000 + Digit(Nib(h, 13)) * 0x10_0000_0000_0000 + Digit(Nib(h, 12)) * 0x1_0000_0000_0000 +
      Digit(Nib(h, 11)) * 0x1000_0000_0000 + Digit(Nib(h, 10)) * 0x100_0000_0000 + Digit(Nib(h, 9)) * 0x10_0000_0000 + Digit(Nib(h, 8)) * 0x1_0000_0000 +
      Digit(Nib(h, 7)) * 0x1000_0000 + Digit(Nib(h, 6)) * 0x100_0000 + Digit(Nib(h, 5)) * 0x10_0000 + Digit(Nib(h, 4)) * 0x1_0000 +
      Digit(Nib(h, 3)) * 0x1000 + Digit(Nib(h, 2)) * 0x100 + Digit(Nib(h, 1)) * 0x10 + Digit(Nib(h, 0))
  }

  /** The Go int of 64 bits: two's complement. */
  function Signed(h: bv64): int {
    if h & 0x8000_0000_0000_0000 == 0 then Unsigned(h) else Unsigned(h) - 0x1_0000_0000_0000_0000
  }

  /** Go's >> on a signed int: the sign bit fills the top. */
  function Sar(h: bv64, n: bv64): bv64
    requires n < 64
  {
    if h & 0x8000_0000_0000_0000 == 0 then h >> n else !((!h) >> n)
  }

  /** clr: the field's bits set to 0. */
  function Clr(h: Hand, f: Field): Hand
    requires f.n < 64
  {
    h & !(f.mask << f.n)
  }

  /** get: the field's bits, as an int. */
  function Get(h: Hand, f: Field): int
    requires f.n < 64 && f.mask < 16
  {
    Digit(Sar(h, f.n) & f.mask)
  }

  /** set: the field cleared, then k shifted into place and or-ed in. */
  function Set(h: Hand, f: Field, k: GoInt): Hand
    requires f.n < 64
  {
    Put(h, f, Word(k))
  }

  /** set, on the bits of k. */
  function Put(h: Hand, f: Field, w: bv64): Hand
    requires f.n < 64
  {
    Clr(h, f) | (w << f.n)
  }

  /** The bits of field f. */
  function Bits64(f: Field): bv64
    requires f.n < 64
  {
    f.mask << f.n
  }

  lemma PutOnK(h: Hand, w: bv64)
    requires w <= 7
    ensures Sar(Put(h, K, w), K.n) & K.mask == w
    ensures Put(h, K, w) & !Bits64(K) == h & !Bits64(K)
  {
  }

  lemma PutOnX(h: Hand, w: bv64)
    requires w <= 1
    ensures Sar(Put(h, X, w), X.n) & X.mask == w
    ensures Put(h, X, w) & !Bits64(X) == h & !Bits64(X)
  {
  }

  /** getk after setk(k) gives back k, for k within the three bits, and
      setk keeps every other bit. */
  lemma GetSetK(h: Hand, k: int)
    requires 0 <= k < 8
    ensures Get(Set(h, K, k), K) == k
    ensures Set(h, K, k) & !Bits64(K) == h & !Bits64(K)
  {
    WordSmall(k);
    NibbleDigit(k);
    PutOnK(h, Nibble(k));
  }

  /** getx after setx is 1, and setx keeps every other bit. */
  lemma GetSetX(h: Hand)
    ensures Get(Set(h, X, 1), X) == 1
    ensures Set(h, X, 1) & !Bits64(X) == h & !Bits64(X)
  {
    WordSmall(1);
    NibbleDigit(1);
    PutOnX(h, Nibble(1));
  }

  /** clrx zeroes the flag, as getx reads it, and keeps every other bit. */
  lemma GetClrX(h: Hand)
    ensures Get(Clr(h, X), X) == 0
    ensures Clr(h, X) & !Bits64(X) == h & !Bits64(X)
  {
    ClrOnX(h);
  }

  lemma ClrOnX(h: Hand)
    ensures Sar(Clr(h, X), X.n) & X.mask == 0
    ensures Clr(h, X) & !Bits64(X) == h & !Bits64(X)
  {
  }

  /** The word of a hex digit: its four bits. */
  function Nibble(k: int): bv64
    requires 0 <= k < 16
  {
    (if k / 8 % 2 == 0 then 0 else 8) | (if k / 4 % 2 == 0 then 0 else 4) | (if k / 2 % 2 == 0 then 0 else 2) |
    (if k % 2 == 0 then 0 else 1)
  }

  /** Digit and Nibble are inverse. */
  lemma NibbleDigit(k: int)
    requires 0 <= k < 16
    ensures Nibble(k) < 16 && Digit(Nibble(k)) == k
    ensures k < 8 ==> Nibble(k) < 8
    ensures k < 2 ==> Nibble(k) < 2
  {
  }

  lemma {:induction false} HexZero(n: nat)
    ensures Hex(0, n) == 0
  {
    if n > 0 {
      HexZero(n - 1);
    }
  }

  /** A hex digit's word is its nibble. */
  lemma WordSmall(k: int)
    requires 0 <= k < 16
    ensures Word(k) == Nibble(k)
  {
    assert Hex(k, 16) == Nibble(k) | (Hex(0, 15) << 4) by {
      assert k % 16 == k && k / 16 == 0;
    }
    assert Hex(0, 15) == 0 by {
      HexZero(15);
    }
  }

  /** The bits of a hand: kind, flag and five card ranks. */
  function Pack(k: bv64, x: bv64, a: bv64, b: bv64, c: bv64, d: bv64, e: bv64): Hand {
    (k << 21) | (x << 20) | (a << 16) | (b << 12) | (c << 8) | (d << 4) | e
  }

  predicate Small(k: bv64, x: bv64, a: bv64, b: bv64, c: bv64, d: bv64, e: bv64) {
    k < 8 && x < 2 && a < 16 && b < 16 && c < 16 && d < 16 && e < 16
  }

  lemma PutK(k: bv64, x: bv64, a: bv64, b: bv64, c: bv64, d: bv64, e: bv64, w: bv64)
    requires Small(k, x, a, b, c, d, e) && w < 8
    ensures Put(Pack(k, x, a, b, c, d, e), K, w) == Pack(w, x, a, b, c, d, e)
  {
  }

  lemma PutX(k: bv64, x: bv64, a: bv64, b: bv64, c: bv64, d: bv64, e: bv64, w: bv64)
    requires Small(k, x, a, b, c, d, e) && w < 2
    ensures Put(Pack(k, x, a, b, c, d, e), X, w) == Pack(k, w, a, b, c, d, e)
  {
  }

  lemma GetKBits(k: bv64, x: bv64, a: bv64, b: bv64, c: bv64, d: bv64, e: bv64)
    requires Small(k, x, a, b, c, d, e)
    ensures Sar(Pack(k, x, a, b, c, d, e), K.n) & K.mask == k
  {
  }

  lemma GetXBits(k: bv64, x: bv64, a: bv64, b: bv64, c: bv64, d: bv64, e: bv64)
    requires Small(k, x, a, b, c, d, e)
    ensures Sar(Pack(k, x, a, b, c, d, e), X.n) & X.mask == x
  {
  }

  lemma PutCard0(k: bv64, x: bv64, b: bv64, c: bv64, d: bv64, e: bv64, w: bv64)
    requires Small(k, x, 0, b, c, d, e) && w < 16
    ensures Put(Pack(k, x, 0, b, c, d, e), C0, w) == Pack(k, x, w, b, c, d, e)
  {
  }

  lemma PutCard1(k: bv64, x: bv64, a: bv64, c: bv64, d: bv64, e: bv64, w: bv64)
    requires Small(k, x, a, 0, c, d, e) && w < 16
    ensures Put(Pack(k, x, a, 0, c, d, e), C1, w) == Pack(k, x, a, w, c, d, e)
  {
  }

  lemma PutCard2(k: bv64, x: bv64, a: bv64, b: bv64, d: bv64, e: bv64, w: bv64)
    requires Small(k, x, a, b, 0, d, e) && w < 16
    ensures Put(Pack(k, x, a, b, 0, d, e), C2, w) == Pack(k, x, a, b, w, d, e)
  {
  }

  lemma PutCard3(k: bv64, x: bv64, a: bv64, b: bv64, c: bv64, e: bv64, w: bv64)
    requires Small(k, x, a, b, c, 0, e) && w < 16
    ensures Put(Pack(k, x, a, b, c, 0, e), C3, w) == Pack(k, x, a, b, c, w, e)
  {
  }

  lemma PutCard4(k: bv64, x: bv64, a: bv64, b: bv64, c: bv64, d: bv64, w: bv64)
    requires Small(k, x, a, b, c, d, 0) && w < 16
    ensures Put(Pack(k, x, a, b, c, d, 0), C4, w) == Pack(k, x, a, b, c, d, w)
  {
  }

  /** The hex digits of a packed hand. */
  lemma PackNibs(k: bv64, x: bv64, a: bv64, b: bv64, c: bv64, d: bv64, e: bv64)
    requires Small(k, x, a, b, c, d, e)
    ensures var h := Pack(k, x, a, b, c, d, e);
      Nib(h, 0) == e && Nib(h, 1) == d && Nib(h, 2) == c && Nib(h, 3) == b && Nib(h, 4) == a &&
      Nib(h, 5) == (k << 1) | x && h >> 24 == 0
  {
  }

  lemma HighNibs(h: bv64)
    requires h >> 24 == 0
    ensures h & 0x8000_0000_0000_0000 == 0
    ensures Nib(h, 15) == 0 && Nib(h, 14) == 0 && Nib(h, 13) == 0 && Nib(h, 12) == 0 && Nib(h, 11) == 0
    ensures Nib(h, 10) == 0 && Nib(h, 9) == 0 && Nib(h, 8) == 0 && Nib(h, 7) == 0 && Nib(h, 6) == 0
  {
  }

  /** The value of a word whose bits above 24 are clear: its six low digits. */
  lemma Low24(h: bv64)
    requires h >> 24 == 0
    ensures h & 0x8000_0000_0000_0000 == 0
    ensures Unsigned(h) == Digit(Nib(h, 5)) * 0x10_0000 + Digit(Nib(h, 4)) * 0x1_0000 +
      Digit(Nib(h, 3)) * 0x1000 + Digit(Nib(h, 2)) * 0x100 + Digit(Nib(h, 1)) * 0x10 + Digit(Nib(h, 0))
  {
    HighNibs(h);
  }

  /** The top digit of a hand: twice the kind plus the flag. */
  lemma TopDigit(k: bv64, x: bv64)
    requires k < 8 && x < 2
    ensures (k << 1) | x < 16 && Digit((k << 1) | x) == 2 * Digit(k) + Digit(x)
  {
    if k == 0 {} else if k == 1 {} else if k == 2 {} else if k == 3 {}
    else if k == 4 {} else if k == 5 {} else if k == 6 {} else {}
  }

  // ---- Hands as the program builds them

  /** Kind bits and ranks that fit their fields. */
  predicate Fits(k: int, x: int, r: seq<int>) {
    0 <= k < 8 && 0 <= x < 2 && |r| == 5 && forall i :: 0 <= i < 5 ==> 0 <= r[i] < 16
  }

  /** The hand with kind k, flag x and card ranks r. */
  function HandOf(k: int, x: int, r: seq<int>): Hand
    requires Fits(k, x, r)
  {
    Pack(Nibble(k), Nibble(x), Nibble(r[0]), Nibble(r[1]), Nibble(r[2]), Nibble(r[3]), Nibble(r[4]))
  }

  lemma Nibbles(k: int, x: int, r: seq<int>)
    requires Fits(k, x, r)
    ensures Small(Nibble(k), Nibble(x), Nibble(r[0]), Nibble(r[1]), Nibble(r[2]), Nibble(r[3]), Nibble(r[4]))
    ensures Digit(Nibble(k)) == k && Digit(Nibble(x)) == x
    ensures Digit(Nibble(r[0])) == r[0] && Digit(Nibble(r[1])) == r[1] && Digit(Nibble(r[2])) == r[2]
    ensures Digit(Nibble(r[3])) == r[3] && Digit(Nibble(r[4])) == r[4]
  {
    NibbleDigit(k);
    NibbleDigit(x);
    NibbleDigit(r[0]);
    NibbleDigit(r[1]);
    NibbleDigit(r[2]);
    NibbleDigit(r[3]);
    NibbleDigit(r[4]);
  }

  /** setk: only the kind changes. */
  lemma HandSetK(k: int, x: int, r: seq<int>, k': int)
    requires Fits(k, x, r) && 0 <= k' < 8
    ensures Set(HandOf(k, x, r), K, k') == HandOf(k', x, r)
  {
    Nibbles(k, x, r);
    NibbleDigit(k');
    WordSmall(k');
    PutK(Nibble(k), Nibble(x), Nibble(r[0]), Nibble(r[1]), Nibble(r[2]), Nibble(r[3]), Nibble(r[4]), Nibble(k'));
  }

  /** setx: only the flag changes. */
  lemma HandSetX(k: int, x: int, r: seq<int>)
    requires Fits(k, x, r)
    ensures Set(HandOf(k, x, r), X, 1) == HandOf(k, 1, r)
  {
    Nibbles(k, x, r);
    WordSmall(1);
    PutX(Nibble(k), Nibble(x), Nibble(r[0]), Nibble(r[1]), Nibble(r[2]), Nibble(r[3]), Nibble(r[4]), Nibble(1));
  }

  /** getk and getx read back the kind and the flag. */
  lemma HandGet(k: int, x: int, r: seq<int>)
    requires Fits(k, x, r)
    ensures Get(HandOf(k, x, r), K) == k && Get(HandOf(k, x, r), X) == x
  {
    Nibbles(k, x, r);
    GetKBits(Nibble(k), Nibble(x), Nibble(r[0]), Nibble(r[1]), Nibble(r[2]), Nibble(r[3]), Nibble(r[4]));
    GetXBits(Nibble(k), Nibble(x), Nibble(r[0]), Nibble(r[1]), Nibble(r[2]), Nibble(r[3]), Nibble(r[4]));
  }

  /** set of card i on a hand whose rank i is still 0. */
  lemma HandSetCard(k: int, x: int, r: seq<int>, i: int, n: int)
    requires Fits(k, x, r) && 0 <= i < 5 && r[i] == 0 && 0 <= n < 16
    ensures Fits(k, x, r[i := n])
    ensures Set(HandOf(k, x, r), CardField(i), n) == HandOf(k, x, r[i := n])
  {
    if i == 0 {
      assert CardField(i) == C0;
      SetCard0(k, x, r, n);
    } else if i == 1 {
      assert CardField(i) == C1;
      SetCard1(k, x, r, n);
    } else if i == 2 {
      assert CardField(i) == C2;
      SetCard2(k, x, r, n);
    } else if i == 3 {
      assert CardField(i) == C3;
      SetCard3(k, x, r, n);
    } else {
      assert CardField(i) == C4;
      SetCard4(k, x, r, n);
    }
  }

  lemma SetCard0(k: int, x: int, r: seq<int>, n: int)
    requires Fits(k, x, r) && r[0] == 0 && 0 <= n < 16
    ensures Fits(k, x, r[0 := n])
    ensures Set(HandOf(k, x, r), C0, n) == HandOf(k, x, r[0 := n])
  {
    var q := r[0 := n];
    assert q[0] == n && q[1] == r[1] && q[2] == r[2] && q[3] == r[3] && q[4] == r[4];
    Nibbles(k, x, r);
    NibbleDigit(n);
    WordSmall(n);
    PutCard0(Nibble(k), Nibble(x), Nibble(r[1]), Nibble(r[2]), Nibble(r[3]), Nibble(r[4]), Nibble(n));
  }

  lemma SetCard1(k: int, x: int, r: seq<int>, n: int)
    requires Fits(k, x, r) && r[1] == 0 && 0 <= n < 16
    ensures Fits(k, x, r[1 := n])
    ensures Set(HandOf(k, x, r), C1, n) == HandOf(k, x, r[1 := n])
  {
    var q := r[1 := n];
    assert q[1] == n && q[0] == r[0] && q[2] == r[2] && q[3] == r[3] && q[4] == r[4];
    Nibbles(k, x, r);
    NibbleDigit(n);
    WordSmall(n);
    PutCard1(Nibble(k), Nibble(x), Nibble(r[0]), Nibble(r[2]), Nibble(r[3]), Nibble(r[4]), Nibble(n));
  }

  lemma SetCard2(k: int, x: int, r: seq<int>, n: int)
    requires Fits(k, x, r) && r[2] == 0 && 0 <= n < 16
    ensures Fits(k, x, r[2 := n])
    ensures Set(HandOf(k, x, r), C2, n) == HandOf(k, x, r[2 := n])
  {
    var q := r[2 := n];
    assert q[2] == n && q[0] == r[0] && q[1] == r[1] && q[3] == r[3] && q[4] == r[4];
    Nibbles(k, x, r);
    NibbleDigit(n);
    WordSmall(n);
    PutCard2(Nibble(k), Nibble(x), Nibble(r[0]), Nibble(r[1]), Nibble(r[3]), Nibble(r[4]), Nibble(n));
  }

  lemma SetCard3(k: int, x: int, r: seq<int>, n: int)
    requires Fits(k, x, r) && r[3] == 0 && 0 <= n < 16
    ensures Fits(k, x, r[3 := n])
    ensures Set(HandOf(k, x, r), C3, n) == HandOf(k, x, r[3 := n])
  {
    var q := r[3 := n];
    assert q[3] == n && q[0] == r[0] && q[1] == r[1] && q[2] == r[2] && q[4] == r[4];
    Nibbles(k, x, r);
    NibbleDigit(n);
    WordSmall(n);
    PutCard3(Nibble(k), Nibble(x), Nibble(r[0]), Nibble(r[1]), Nibble(r[2]), Nibble(r[4]), Nibble(n));
  }

  lemma SetCard4(k: int, x: int, r: seq<int>, n: int)
    requires Fits(k, x, r) && r[4] == 0 && 0 <= n < 16
    ensures Fits(k, x, r[4 := n])
    ensures Set(HandOf(k, x, r), C4, n) == HandOf(k, x, r[4 := n])
  {
    var q := r[4 := n];
    assert q[4] == n && q[0] == r[0] && q[1] == r[1] && q[2] == r[2] && q[3] == r[3];
    Nibbles(k, x, r);
    NibbleDigit(n);
    WordSmall(n);
    PutCard4(Nibble(k), Nibble(x), Nibble(r[0]), Nibble(r[1]), Nibble(r[2]), Nibble(r[3]), Nibble(n));
  }

  /** A hand's Go int: base-16 digits, the top one twice the kind plus the
      flag, then the five ranks. */
  function Value(k: int, x: int, r: seq<int>): int
    requires Fits(k, x, r)
  {
    Horner([2 * k + x] + r)
  }

  /** The hex digits of a hand. */
  lemma HandDigits(k: int, x: int, r: seq<int>)
    requires Fits(k, x, r)
    ensures var h := HandOf(k, x, r);
      h >> 24 == 0 && Digit(Nib(h, 5)) == 2 * k + x && Digit(Nib(h, 4)) == r[0] &&
      Digit(Nib(h, 3)) == r[1] && Digit(Nib(h, 2)) == r[2] && Digit(Nib(h, 1)) == r[3] && Digit(Nib(h, 0)) == r[4]
  {
    Nibbles(k, x, r);
    PackDigits(Nibble(k), Nibble(x), Nibble(r[0]), Nibble(r[1]), Nibble(r[2]), Nibble(r[3]), Nibble(r[4]));
  }

  lemma PackDigits(k: bv64, x: bv64, a: bv64, b: bv64, c: bv64, d: bv64, e: bv64)
    requires Small(k, x, a, b, c, d, e)
    ensures var h := Pack(k, x, a, b, c, d, e);
      h >> 24 == 0 && Digit(Nib(h, 5)) == 2 * Digit(k) + Digit(x) && Digit(Nib(h, 4)) == Digit(a) &&
      Digit(Nib(h, 3)) == Digit(b) && Digit(Nib(h, 2)) == Digit(c) && Digit(Nib(h, 1)) == Digit(d) &&
      Digit(Nib(h, 0)) == Digit(e)
  {
    PackNibs(k, x, a, b, c, d, e);
    TopDigit(k, x);
  }

  lemma HandValue(k: int, x: int, r: seq<int>)
    requires Fits(k, x, r)
    ensures Signed(HandOf(k, x, r)) == Value(k, x, r)
  {
    var h := HandOf(k, x, r);
    HandDigits(k, x, r);
    Low24(h);
    HornerSix([2 * k + x] + r);
  }

  // ---- Digits

  /** 16^n. */
  function Pow16(n: nat): (p: nat)
    ensures p >= 1
  {
    if n == 0 then 1 else 16 * Pow16(n - 1)
  }

  /** The number whose base-16 digits are ds, most significant first. */
  function Horner(ds: seq<int>): int {
    if ds == [] then 0 else ds[0] * Pow16(|ds| - 1) + Horner(ds[1..])
  }

  predicate Digits(ds: seq<int>) {
    forall i :: 0 <= i < |ds| ==> 0 <= ds[i] < 16
  }

  lemma HornerSix(ds: seq<int>)
    requires |ds| == 6
    ensures Horner(ds) == ds[0] * 0x10_0000 + ds[1] * 0x1_0000 + ds[2] * 0x1000 + ds[3] * 0x100 + ds[4] * 0x10 + ds[5]
  {
    assert Horner(ds[5..]) == ds[5];
    assert Horner(ds[4..]) == ds[4] * 0x10 + ds[5];
    assert Horner(ds[3..]) == ds[3] * 0x100 + ds[4] * 0x10 + ds[5];
    assert Horner(ds[2..]) == ds[2] * 0x1000 + ds[3] * 0x100 + ds[4] * 0x10 + ds[5];
    assert Horner(ds[1..]) == ds[1] * 0x1_0000 + ds[2] * 0x1000 + ds[3] * 0x100 + ds[4] * 0x10 + ds[5];
  }

  /** Lexicographic order, the first differing entry deciding. */
  predicate Lex(a: seq<int>, b: seq<int>)
    requires |a| == |b|
  {
    a != [] && (a[0] < b[0] || (a[0] == b[0] && Lex(a[1..], b[1..])))
  }

  lemma MulLe(a: int, b: int, p: nat)
    requires a <= b
    ensures a * p <= b * p
  {
  }

  lemma MulGap(a: int, b: int, p: nat)
    requires a < b
    ensures a * p + p <= b * p
  {
    assert b * p - a * p == (b - a) * p;
    MulLe(1, b - a, p);
  }

  lemma {:induction false} HornerBound(ds: seq<int>)
    requires Digits(ds)
    ensures 0 <= Horner(ds) < Pow16(|ds|)
  {
    if ds != [] {
      var p := Pow16(|ds| - 1);
      assert Pow16(|ds|) == 16 * p;
      HornerBound(ds[1..]);
      assert |ds[1..]| == |ds| - 1;
      MulLe(ds[0], 15, p);
      MulLe(0, ds[0], p);
    }
  }

  /** Numbers of equally many digits compare as their digit strings. */
  lemma {:induction false} HornerLex(a: seq<int>, b: seq<int>)
    requires Digits(a) && Digits(b) && |a| == |b|
    ensures Horner(a) < Horner(b) <==> Lex(a, b)
    ensures Horner(a) == Horner(b) <==> a == b
  {
    if a != [] {
      var p := Pow16(|a| - 1);
      assert |a[1..]| == |a| - 1 && |b[1..]| == |b| - 1;
      var ra, rb := Horner(a[1..]), Horner(b[1..]);
      assert Horner(a) == a[0] * p + ra && Horner(b) == b[0] * p + rb;
      HornerBound(a[1..]);
      HornerBound(b[1..]);
      HornerLex(a[1..], b[1..]);
      if a[0] < b[0] {
        MulGap(a[0], b[0], p);
      } else if a[0] > b[0] {
        MulGap(b[0], a[0], p);
      } else {
        assert a == [a[0]] + a[1..] && b == [b[0]] + b[1..];
      }
    }
  }

  // ---- Cards

  const Jack := false
  const Joker := true

  /** ctoi's rank strings: a card's rank is its index. */
  const Plain := "?23456789TJQKA"
  const Wild := "J23456789T?QKA"

  /** The cards, from the lowest in Jack mode. */
  const Cards := "23456789TJQKA"

  function Alphabet(mode: bool): string {
    if mode == Joker then Wild else Plain
  }

  /** The first index of c in s, or -1. */
  function Index(s: string, c: char): (i: int)
    ensures -1 <= i < |s|
    ensures i >= 0 ==> s[i] == c && forall j :: 0 <= j < i ==> s[j] != c
    ensures i < 0 <==> c !in s
  {
    if s == [] then -1
    else if s[0] == c then 0
    else
      var i := Index(s[1..], c);
      if i < 0 then -1 else i + 1
  }

  /** ctoi: a card's rank in the mode's rank string, -1 for a stranger. */
  function Ctoi(c: char, mode: bool): int {
    Index(Alphabet(mode), c)
  }

  predicate Distinct(s: string) {
    forall i, j :: 0 <= i < j < |s| ==> s[i] != s[j]
  }

  lemma IndexDistinct(s: string, i: int)
    requires Distinct(s) && 0 <= i < |s|
    ensures Index(s, s[i]) == i
  {
    var j := Index(s, s[i]);
    assert s[i] in s;
  }

  /** No rank string repeats a character. */
  lemma RanksDistinct()
    ensures Distinct(Plain) && Distinct(Wild)
  {
  }

  /** In Jack mode the ranks follow the cards, 2 lowest at 1. */
  lemma CtoiJack(i: int)
    requires 0 <= i < |Cards|
    ensures Ctoi(Cards[i], Jack) == i + 1
  {
    RanksDistinct();
    assert Plain[i + 1] == Cards[i];
    IndexDistinct(Plain, i + 1);
  }

  /** In Joker mode J is 0, below every other card, whose ranks stay. */
  lemma CtoiJoker(i: int)
    requires 0 <= i < |Cards|
    ensures Ctoi(Cards[i], Joker) == if Cards[i] == 'J' then 0 else i + 1
  {
    RanksDistinct();
    if Cards[i] == 'J' {
      IndexDistinct(Wild, 0);
    } else {
      assert Wild[i + 1] == Cards[i];
      IndexDistinct(Wild, i + 1);
    }
  }

  /** A line's hand: five cards. */
  predicate ValidHand(s: string) {
    |s| == 5 && forall i :: 0 <= i < 5 ==> s[i] in Cards
  }

  /** A card of the deck has a rank from 0 to 13. */
  lemma CtoiRange(c: char, mode: bool)
    requires c in Cards
    ensures 0 <= Ctoi(c, mode) < 14
    ensures mode == Jack ==> Ctoi(c, mode) >= 1
  {
    var i :| 0 <= i < |Cards| && Cards[i] == c;
    CtoiJack(i);
    CtoiJoker(i);
  }

  /** Two cards of the deck share a rank only if they are the same card. */
  lemma CtoiInjective(c: char, d: char, mode: bool)
    requires c in Cards && d in Cards && Ctoi(c, mode) == Ctoi(d, mode)
    ensures c == d
  {
    var i :| 0 <= i < |Cards| && Cards[i] == c;
    var j :| 0 <= j < |Cards| && Cards[j] == d;
    CtoiJack(i);
    CtoiJoker(i);
    CtoiJack(j);
    CtoiJoker(j);
  }

  /** The ranks of a hand's cards, in order. */
  function Ranks(s: string, mode: bool): (r: seq<int>)
    requires ValidHand(s)
    ensures |r| == 5 && forall i :: 0 <= i < 5 ==> 0 <= r[i] < 14
  {
    seq(5, i requires 0 <= i < 5 => CtoiRange(s[i], mode); Ctoi(s[i], mode))
  }

  // ---- Tallies

  /** How many entries of q are v. */
  function Count(q: seq<int>, v: int): (n: nat)
    ensures n <= |q|
  {
    if q == [] then 0 else Count(q[..|q| - 1], v) + (if q[|q| - 1] == v then 1 else 0)
  }

  /** Ranks of cards of the deck. */
  predicate Ranked(q: seq<int>) {
    forall i :: 0 <= i < |q| ==> 0 <= q[i] < 14
  }

  const NoCards: seq<int> := [0, 0, 0, 0, 0, 0, 0, 0, 0, 0, 0, 0, 0, 0]

  /** buf: one count per rank, raised for each card. */
  function Tally(q: seq<int>): (t: seq<int>)
    requires Ranked(q)
    ensures |t| == 14 && NonNeg(t)
  {
    if q == [] then NoCards
    else
      var t := Tally(q[..|q| - 1]);
      t[q[|q| - 1] := t[q[|q| - 1]] + 1]
  }

  /** buf counts the cards of each rank. */
  lemma {:induction false} TallyCount(q: seq<int>, v: int)
    requires Ranked(q) && 0 <= v < 14
    ensures Tally(q)[v] == Count(q, v)
  {
    if q != [] {
      TallyCount(q[..|q| - 1], v);
    }
  }

  function Total(s: seq<int>): int {
    if s == [] then 0 else Total(s[..|s| - 1]) + s[|s| - 1]
  }

  predicate NonNeg(s: seq<int>) {
    forall i :: 0 <= i < |s| ==> s[i] >= 0
  }

  lemma {:induction false} TotalUpdate(s: seq<int>, v: int, d: int)
    requires 0 <= v < |s|
    ensures Total(s[v := s[v] + d]) == Total(s) + d
  {
    var n := |s| - 1;
    assert s[v := s[v] + d][..n] == if v < n then s[..n][v := s[v] + d] else s[..n];
    if v < n {
      TotalUpdate(s[..n], v, d);
    }
  }

  lemma {:induction false} TotalZero(s: seq<int>)
    requires forall i :: 0 <= i < |s| ==> s[i] == 0
    ensures Total(s) == 0
  {
    if s != [] {
      TotalZero(s[..|s| - 1]);
    }
  }

  /** Every card of a hand is tallied once. */
  lemma {:induction false} TallyTotal(q: seq<int>)
    requires Ranked(q)
    ensures Total(Tally(q)) == |q|
  {
    if q == [] {
      TotalZero(Tally(q));
    } else {
      var p, v := q[..|q| - 1], q[|q| - 1];
      TallyTotal(p);
      assert Tally(q) == Tally(p)[v := Tally(p)[v] + 1];
      TotalUpdate(Tally(p), v, 1);
    }
  }

  lemma {:induction false} TotalPrefix(s: seq<int>, i: int)
    requires NonNeg(s) && 0 <= i <= |s|
    ensures 0 <= Total(s[..i]) <= Total(s)
  {
    if i < |s| {
      var n := |s| - 1;
      assert s[..n][..i] == s[..i];
      TotalPrefix(s[..n], i);
    } else {
      assert s[..i] == s;
      if s != [] {
        TotalPrefix(s[..|s| - 1], |s| - 1);
        assert s[..|s| - 1][..|s| - 1] == s[..|s| - 1];
      }
    }
  }

  // ---- Kinds

  /** The largest entry of s and the largest of the others: the two
      biggest groups of equal cards. */
  function Top2(s: seq<int>): (m: (int, int))
    requires NonNeg(s)
    ensures 0 <= m.1 <= m.0
    ensures m.0 + m.1 <= Total(s)
    ensures Total(s) > 0 ==> m.0 > 0
  {
    if s == [] then (0, 0)
    else
      var p := s[..|s| - 1];
      assert forall i :: 0 <= i < |p| ==> p[i] == s[i];
      Next(Top2(p), s[|s| - 1])
  }

  /** No count exceeds Top2's first, no two counts exceed its sum. */
  lemma {:induction false} Top2Bounds(s: seq<int>)
    requires NonNeg(s)
    ensures forall i :: 0 <= i < |s| ==> s[i] <= Top2(s).0
    ensures forall i, j :: 0 <= i < j < |s| ==> s[i] + s[j] <= Top2(s).0 + Top2(s).1
  {
    if s != [] {
      var n := |s| - 1;
      var p := s[..n];
      assert forall i :: 0 <= i < n ==> p[i] == s[i];
      Top2Bounds(p);
      assert Top2(s) == Next(Top2(p), s[n]);
    }
  }

  /** Top2's first is some count, and its sum the sum of two counts. */
  lemma {:induction false} Top2Attained(s: seq<int>)
    requires NonNeg(s)
    ensures |s| >= 1 ==> exists i :: 0 <= i < |s| && s[i] == Top2(s).0
    ensures |s| >= 2 ==> exists i, j :: 0 <= i < j < |s| && s[i] + s[j] == Top2(s).0 + Top2(s).1
  {
    if s != [] {
      var n := |s| - 1;
      var p := s[..n];
      assert forall i :: 0 <= i < n ==> p[i] == s[i];
      Top2Attained(p);
      var m := Top2(p);
      var c := s[n];
      assert Top2(s) == Next(m, c);
      if n == 0 {
        assert s[0] == Top2(s).0;
      } else {
        var a :| 0 <= a < n && p[a] == m.0;
        if c > m.0 {
          assert s[a] + s[n] == c + m.0;
        } else if c > m.1 {
          assert s[a] + s[n] == m.0 + c;
        } else if n >= 2 {
          var i, j :| 0 <= i < j < n && p[i] + p[j] == m.0 + m.1;
          assert s[i] + s[j] == m.0 + m.1;
        } else {
          assert s[0] + s[1] == m.0 + m.1;
        }
      }
    }
  }

  /** The two biggest groups after one more count c. */
  function Next(m: (int, int), c: int): (int, int) {
    if c > m.0 then (c, m.0) else if c > m.1 then (m.0, c) else m
  }

  datatype Kind = HighCard | OnePair | TwoPair | ThreeOfAKind | FullHouse | FourOfAKind | FiveOfAKind

  /** The kind of a hand whose two biggest groups hold m1 and m2 cards. */
  function KindOf(m: (int, int)): Kind {
    if m.0 >= 5 then FiveOfAKind
    else if m.0 == 4 then FourOfAKind
    else if m.0 == 3 then (if m.1 >= 2 then FullHouse else ThreeOfAKind)
    else if m.0 == 2 then (if m.1 >= 2 then TwoPair else OnePair)
    else HighCard
  }

  /** The place of a kind in the ranking, weakest first. */
  function Strength(kind: Kind): nat {
    match kind
    case HighCard => 0
    case OnePair => 1
    case TwoPair => 2
    case ThreeOfAKind => 3
    case FullHouse => 4
    case FourOfAKind => 5
    case FiveOfAKind => 6
  }

  /** A kind's k and x fields. */
  function Bits(kind: Kind): (b: (int, int))
    ensures 1 <= b.0 <= 4 && 0 <= b.1 <= 1
  {
    match kind
    case HighCard => (1, 0)
    case OnePair => (2, 0)
    case TwoPair => (2, 1)
    case ThreeOfAKind => (3, 0)
    case FullHouse => (3, 1)
    case FourOfAKind => (4, 0)
    case FiveOfAKind => (4, 1)
  }

  /** The top digit 2k + x ranks kinds as the game does. */
  lemma BitsOrder(a: Kind, b: Kind)
    ensures Strength(a) < Strength(b) <==> 2 * Bits(a).0 + Bits(a).1 < 2 * Bits(b).0 + Bits(b).1
    ensures a == b <==> Bits(a) == Bits(b)
  {
  }

  /** The best kind of a hand: in Joker mode the jokers join the biggest
      group of the other cards. */
  function Best(s: string, mode: bool): Kind
    requires ValidHand(s)
  {
    Classify(Tally(Ranks(s, mode)), mode)
  }

  /** The kind of a hand with tally t. */
  function Classify(t: seq<int>, mode: bool): Kind
    requires |t| == 14 && NonNeg(t)
  {
    var m := Top2(Kept(t, mode));
    if mode == Joker then KindOf((m.0 + t[0], m.1)) else KindOf(m)
  }

  /** The counts that make up the kind: in Joker mode the jokers' count
      is set aside. */
  function Kept(t: seq<int>, mode: bool): (kept: seq<int>)
    requires |t| == 14 && NonNeg(t)
    ensures |kept| == 14 && NonNeg(kept)
    ensures forall v :: 0 < v < 14 ==> kept[v] == t[v]
    ensures kept[0] == (if mode == Joker then 0 else t[0])
  {
    if mode == Joker then t[0 := 0] else t
  }

  /** The hand newHand builds. */
  function Encode(s: string, mode: bool): Hand
    requires ValidHand(s)
  {
    var b := Bits(Best(s, mode));
    HandOf(b.0, b.1, Ranks(s, mode))
  }

  /** newHand's switch on one rank's count c, on the k and x fields. */
  function Step(b: (int, int), c: int): (int, int) {
    if c == 5 then (4, 1)
    else if c == 4 then (4, b.1)
    else if c == 3 then (3, if b.0 == 2 then 1 else b.1)
    else if c == 2 then (if b.0 >= 2 then (b.0, 1) else (2, b.1))
    else b
  }

  /** The switch keeps the fields at the kind of the counts read so far. */
  lemma SwitchStep(p: seq<int>, c: int)
    requires NonNeg(p) && c >= 0 && Total(p) + c <= 5
    ensures NonNeg(p + [c])
    ensures Step(Bits(KindOf(Top2(p))), c) == Bits(KindOf(Top2(p + [c])))
  {
    assert NonNeg(p + [c]);
    var m := Top2(p);
    assert Top2(p + [c]) == Next(m, c) by {
      assert (p + [c])[..|p|] == p;
    }
    SwitchNext(m, c);
  }

  lemma SwitchNext(m: (int, int), c: int)
    requires 0 <= m.1 <= m.0 && c >= 0 && m.0 + m.1 + c <= 5
    ensures Step(Bits(KindOf(m)), c) == Bits(KindOf(Next(m, c)))
  {
  }

  /** newHand's joker raise of the k and x fields by j jokers. */
  function Raise(b: (int, int), j: int): (int, int) {
    if j == 0 then b
    else if b.0 + j == 6 || b.0 + j == 5 then (4, 1)
    else (b.0 + j, b.1)
  }

  /** Raising the other cards' kind by the jokers gives the kind of the
      jokers joining the biggest group. */
  lemma JokerStep(m: (int, int), j: int)
    requires 0 <= m.1 <= m.0 && 0 <= j && m.0 + m.1 + j <= 5 && (m.0 == 0 ==> j == 5)
    ensures Raise(Bits(KindOf(m)), j) == Bits(KindOf((m.0 + j, m.1)))
  {
  }

  /** Counts of 0 after the last card read change nothing. */
  lemma {:induction false} Top2Rest(s: seq<int>, i: int)
    requires NonNeg(s) && 0 <= i <= |s| && Total(s[..i]) == Total(s)
    ensures Top2(s[..i]) == Top2(s)
  {
    if i < |s| {
      var n := |s| - 1;
      assert s[..n][..i] == s[..i];
      TotalPrefix(s[..n], i);
      Top2Rest(s[..n], i);
    } else {
      assert s[..i] == s;
    }
  }

  /** buf after one more card. */
  lemma TallyNext(r: seq<int>, i: int)
    requires Ranked(r) && 0 <= i < |r|
    ensures Ranked(r[..i]) && Ranked(r[..i + 1])
    ensures Tally(r[..i + 1]) == Tally(r[..i])[r[i] := Tally(r[..i])[r[i]] + 1]
  {
    assert r[..i + 1][..i] == r[..i];
  }

  // ---- newHand

  /** newHand: k starts at 1 (high card); each card's rank goes into its
      field and is tallied in buf; then the counts are read rank by rank,
      skipping J in Joker mode and stopping once every card is read; in
      Joker mode the jokers finally raise the kind. */
  method NewHand(s: string, mode: bool) returns (h: Hand)
    requires ValidHand(s)
    ensures h == Encode(s, mode)
  {
    ghost var r := Ranks(s, mode);
    assert forall i :: 0 <= i < 5 ==> r[i] == Ctoi(s[i], mode);
    var buf;
    h, buf := ReadCards(s, mode, r);
    h := ReadKinds(h, buf, mode, r);
  }

  /** newHand's first loop: the ranks into their fields, and buf. */
  method ReadCards(s: string, mode: bool, ghost r: seq<int>) returns (h: Hand, buf: seq<int>)
    requires |s| == 5 && |r| == 5 && Ranked(r)
    requires forall i :: 0 <= i < 5 ==> r[i] == Ctoi(s[i], mode)
    ensures Fits(1, 0, r) && h == HandOf(1, 0, r) && buf == Tally(r)
  {
    ghost var q;
    h, q := StartHand();
    buf := NoCards;
    assert r[..0] == [];
    for i := 0 to 5
      invariant Fits(1, 0, q) && h == HandOf(1, 0, q) && Filled(q, r, i)
      invariant buf == Tally(r[..i])
    {
      h, buf, q := ReadCard(h, buf, s, mode, i, r, q);
    }
    assert r[..5] == r;
    assert q == r;
  }

  /** h := 0, then k := 1: a high card with no card read. */
  method StartHand() returns (h: Hand, ghost q: seq<int>)
    ensures Fits(1, 0, q) && h == HandOf(1, 0, q) && q == [0, 0, 0, 0, 0]
  {
    q := [0, 0, 0, 0, 0];
    h := 0;
    assert h == HandOf(0, 0, q) by {
      assert Nibble(0) == 0;
    }
    h := SetKind(h, 0, 0, q, 1);
  }

  /** The first i ranks are in their fields, the others still 0. */
  predicate Filled(q: seq<int>, r: seq<int>, i: int) {
    |q| == 5 && |r| == 5 && forall j :: 0 <= j < 5 ==> q[j] == (if j < i then r[j] else 0)
  }

  /** One pass of newHand's first loop: card i's rank into its field
      and into buf. */
  method ReadCard(h0: Hand, buf0: seq<int>, s: string, mode: bool, i: int, ghost r: seq<int>, ghost q0: seq<int>)
    returns (h: Hand, buf: seq<int>, ghost q: seq<int>)
    requires |s| == 5 && 0 <= i < 5 && |r| == 5 && Ranked(r) && r[i] == Ctoi(s[i], mode)
    requires Fits(1, 0, q0) && h0 == HandOf(1, 0, q0) && Filled(q0, r, i)
    requires buf0 == Tally(r[..i])
    ensures Fits(1, 0, q) && h == HandOf(1, 0, q) && Filled(q, r, i + 1)
    ensures buf == Tally(r[..i + 1])
  {
    var n := Ctoi(s[i], mode);
    h, q := PlaceCard(h0, i, n, q0);
    buf := CountCard(buf0, n, r, i);
  }

  /** h = setCard(h, i, n): the rank into card i's field, still 0. */
  method PlaceCard(h0: Hand, i: int, n: int, ghost q0: seq<int>) returns (h: Hand, ghost q: seq<int>)
    requires Fits(1, 0, q0) && h0 == HandOf(1, 0, q0) && 0 <= i < 5 && q0[i] == 0 && 0 <= n < 16
    ensures q == q0[i := n] && Fits(1, 0, q) && h == HandOf(1, 0, q)
  {
    HandSetCard(1, 0, q0, i, n);
    h := Set(h0, CardField(i), n);
    q := q0[i := n];
  }

  /** buf[n]++ for card i of rank n. */
  method CountCard(buf0: seq<int>, n: int, ghost r: seq<int>, i: int) returns (buf: seq<int>)
    requires Ranked(r) && 0 <= i < |r| && n == r[i] && Ranked(r[..i]) && buf0 == Tally(r[..i])
    ensures Ranked(r[..i + 1]) && buf == Tally(r[..i + 1])
  {
    TallyNext(r, i);
    buf := buf0[n := buf0[n] + 1];
  }

  /** The counts newHand reads: buf, with the jokers' count left out in
      Joker mode. */
  predicate Reading(buf: seq<int>, mode: bool, J: int, kept: seq<int>) {
    |buf| == 14 && NonNeg(buf) && (mode == Joker ==> J == 0) &&
    kept == Kept(buf, mode) &&
    Total(kept) == 5 - (if mode == Joker then buf[0] else 0)
  }

  /** newHand after the first loop: the kind from the tally. */
  method ReadKinds(h0: Hand, buf: seq<int>, mode: bool, ghost r: seq<int>) returns (h: Hand)
    requires Fits(1, 0, r) && Ranked(r) && h0 == HandOf(1, 0, r) && buf == Tally(r)
    ensures var b := Bits(Classify(buf, mode)); h == HandOf(b.0, b.1, r)
  {
    var J := Ctoi('J', mode);
    JokerRank();
    ReadingTally(r, mode, J);
    ghost var kept := Kept(buf, mode);
    h := ReadKind(h0, buf, mode, J, r, kept);
    if mode == Joker {
      h := RaiseJokers(h, buf[J], r, Top2(kept));
    }
  }

  lemma JokerRank()
    ensures Ctoi('J', Joker) == 0
  {
    assert Wild[0] == 'J';
  }

  lemma ReadingTally(r: seq<int>, mode: bool, J: int)
    requires Ranked(r)
    requires |r| == 5 && (mode == Joker ==> J == 0)
    ensures Reading(Tally(r), mode, J, Kept(Tally(r), mode))
  {
    TallyTotal(r);
    if mode == Joker {
      var t: seq<int> := Tally(r);
      var d: int := 0 - t[0];
      TotalUpdate(t, 0, d);
    }
  }

  /** newHand's second loop: the counts read rank by rank. */
  method ReadKind(h0: Hand, buf: seq<int>, mode: bool, J: int, ghost r: seq<int>, ghost kept: seq<int>)
    returns (h: Hand)
    requires Fits(1, 0, r) && h0 == HandOf(1, 0, r)
    requires Reading(buf, mode, J, kept)
    ensures var b := Bits(KindOf(Top2(kept))); h == HandOf(b.0, b.1, r)
  {
    h := h0;
    var nread := 0;
    ghost var k, x := 1, 0;
    var i := 0;
    while i < 14
      invariant 0 <= i <= 14
      invariant Fits(k, x, r) && h == HandOf(k, x, r)
      invariant NonNeg(kept[..i]) && (k, x) == Bits(KindOf(Top2(kept[..i])))
      invariant nread == Total(kept[..i])
      decreases 14 - i
    {
      var stop;
      h, nread, stop, k, x := ReadRank(h, nread, buf, mode, J, i, r, kept, k, x);
      i := i + 1;
      if stop {
        break;
      }
    }
    assert (k, x) == Bits(KindOf(Top2(kept))) by {
      if i == 14 {
        assert kept[..i] == kept;
      }
    }
  }

  /** One round of newHand's second loop: rank i skipped if it is the
      jokers', its count read otherwise; stop once every card is read. */
  method ReadRank(h0: Hand, nread0: int, buf: seq<int>, mode: bool, J: int, i: int, ghost r: seq<int>,
                  ghost kept: seq<int>, ghost k0: int, ghost x0: int)
    returns (h: Hand, nread: int, stop: bool, ghost k: int, ghost x: int)
    requires Reading(buf, mode, J, kept) && 0 <= i < 14
    requires Fits(k0, x0, r) && h0 == HandOf(k0, x0, r)
    requires NonNeg(kept[..i]) && (k0, x0) == Bits(KindOf(Top2(kept[..i]))) && nread0 == Total(kept[..i])
    ensures Fits(k, x, r) && h == HandOf(k, x, r)
    ensures NonNeg(kept[..i + 1]) && (k, x) == Bits(KindOf(Top2(kept[..i + 1]))) && nread == Total(kept[..i + 1])
    ensures stop ==> (k, x) == Bits(KindOf(Top2(kept)))
  {
    h, nread, stop, k, x := h0, nread0, false, k0, x0;
    assert kept[..i + 1] == kept[..i] + [kept[i]];
    TotalPrefix(kept, i + 1);
    if mode == Joker && i == J {
      assert Top2(kept[..i + 1]) == Top2(kept[..i]);
      return;
    }
    nread := nread + buf[i];
    SwitchStep(kept[..i], buf[i]);
    h, k, x := Switch(h, buf[i], k, x, r);
    if nread == 5 || (mode == Joker && nread == 5 - buf[J]) {
      Top2Rest(kept, i + 1);
      stop := true;
    }
  }

  /** newHand's switch on one rank's count. */
  method Switch(h0: Hand, c: int, ghost k0: int, ghost x0: int, ghost r: seq<int>)
    returns (h: Hand, ghost k: int, ghost x: int)
    requires 1 <= k0 <= 4 && Fits(k0, x0, r) && h0 == HandOf(k0, x0, r)
    ensures (k, x) == Step((k0, x0), c)
    ensures Fits(k, x, r) && h == HandOf(k, x, r)
  {
    h, k, x := h0, k0, x0;
    if c == 5 {
      h := SetPair(h, k, x, r);
      x := 1;
      h := SetKind(h, k, x, r, 4);
      k := 4;
    } else if c == 4 {
      h := SetKind(h, k, x, r, 4);
      k := 4;
    } else if c == 3 {
      HandGet(k, x, r);
      if Get(h, K) == 2 {
        h := SetPair(h, k, x, r);
        x := 1;
      }
      h := SetKind(h, k, x, r, 3);
      k := 3;
    } else if c == 2 {
      HandGet(k, x, r);
      if Get(h, K) >= 2 {
        h := SetPair(h, k, x, r);
        x := 1;
      } else {
        h := SetKind(h, k, x, r, 2);
        k := 2;
      }
    }
  }

  /** setField(h, X, 1). */
  method SetPair(h0: Hand, ghost k0: int, ghost x0: int, ghost r: seq<int>) returns (h: Hand)
    requires Fits(k0, x0, r) && h0 == HandOf(k0, x0, r)
    ensures Fits(k0, 1, r) && h == HandOf(k0, 1, r)
  {
    HandSetX(k0, x0, r);
    h := Set(h0, X, 1);
  }

  /** newHand's joker raise: k plus the jokers, five of a kind from 5 up. */
  method RaiseJokers(h0: Hand, j: int, ghost r: seq<int>, ghost m: (int, int)) returns (h: Hand)
    requires 0 <= m.1 <= m.0 && 0 <= j && m.0 + m.1 + j <= 5 && (m.0 == 0 ==> j == 5)
    requires var b := Bits(KindOf(m)); Fits(b.0, b.1, r) && h0 == HandOf(b.0, b.1, r)
    ensures var b := Bits(KindOf((m.0 + j, m.1))); h == HandOf(b.0, b.1, r)
  {
    ghost var b := Bits(KindOf(m));
    JokerStep(m, j);
    HandGet(b.0, b.1, r);
    var k := Get(h0, K) + j;
    h := h0;
    if j == 0 {
    } else if k == 6 || k == 5 {
      h := MakeFive(h, b.0, b.1, r);
    } else {
      h := SetKind(h, b.0, b.1, r, k);
    }
  }

  /** setField(h, K, k). */
  method SetKind(h0: Hand, ghost k0: int, ghost x0: int, ghost r: seq<int>, k: int) returns (h: Hand)
    requires Fits(k0, x0, r) && h0 == HandOf(k0, x0, r) && 0 <= k < 8
    ensures Fits(k, x0, r) && h == HandOf(k, x0, r)
  {
    HandSetK(k0, x0, r, k);
    h := Set(h0, K, k);
  }

  /** setField(h, K, 4) and setField(h, X, 1): five of a kind. */
  method MakeFive(h0: Hand, ghost k0: int, ghost x0: int, ghost r: seq<int>) returns (h: Hand)
    requires Fits(k0, x0, r) && h0 == HandOf(k0, x0, r)
    ensures Fits(4, 1, r) && h == HandOf(4, 1, r)
  {
    h := SetKind(h0, k0, x0, r, 4);
    h := SetPair(h, 4, x0, r);
  }

  // ---- cmp

  /** Go's int arithmetic: a result wrapped into 64 bits. */
  function Wrap(n: int): (w: int)
    ensures -0x8000_0000_0000_0000 <= w < 0x8000_0000_0000_0000
    ensures -0x8000_0000_0000_0000 <= n < 0x8000_0000_0000_0000 ==> w == n
  {
    (n + 0x8000_0000_0000_0000) % 0x1_0000_0000_0000_0000 - 0x8000_0000_0000_0000
  }

  /** h.cmp(u): the difference of the two hands as Go ints. */
  function Cmp(h: Hand, u: Hand): int {
    Wrap(Signed(h) - Signed(u))
  }

  /** The game's order on hands: the stronger kind first, then the first
      card that differs. */
  predicate Before(s: string, t: string, mode: bool)
    requires ValidHand(s) && ValidHand(t)
  {
    Strength(Best(s, mode)) < Strength(Best(t, mode)) ||
    (Best(s, mode) == Best(t, mode) && Lex(Ranks(s, mode), Ranks(t, mode)))
  }

  /** Different hands have different ranks. */
  lemma RanksInjective(s: string, t: string, mode: bool)
    requires ValidHand(s) && ValidHand(t) && Ranks(s, mode) == Ranks(t, mode)
    ensures s == t
  {
    forall i | 0 <= i < 5
      ensures s[i] == t[i]
    {
      assert Ranks(s, mode)[i] == Ranks(t, mode)[i];
      CtoiInjective(s[i], t[i], mode);
    }
  }

  /** A hand's Go int is below 16^6, so cmp never wraps. */
  lemma ValueBound(k: int, x: int, r: seq<int>)
    requires Fits(k, x, r) && k < 4 + 1 && x < 2
    ensures 0 <= Value(k, x, r) < 0x100_0000
  {
    var ds := [2 * k + x] + r;
    assert Digits(ds);
    HornerBound(ds);
    assert Pow16(6) == 0x100_0000;
  }

  /** The top hex digit of a hand of a kind. */
  function Top(kind: Kind): (d: int)
    ensures 2 <= d < 10
  {
    2 * Bits(kind).0 + Bits(kind).1
  }

  /** A hand's top digit and ranks make up its value. */
  lemma TopValue(kind: Kind, r: seq<int>)
    requires |r| == 5 && Ranked(r)
    ensures var b := Bits(kind); Fits(b.0, b.1, r) && Value(b.0, b.1, r) == Horner([Top(kind)] + r)
  {
  }

  /** cmp of two hands is the difference of their values: no wrap-around. */
  lemma CmpValues(k: int, x: int, ra: seq<int>, l: int, y: int, rb: seq<int>)
    requires Fits(k, x, ra) && k < 5 && x < 2 && Fits(l, y, rb) && l < 5 && y < 2
    ensures Cmp(HandOf(k, x, ra), HandOf(l, y, rb)) == Value(k, x, ra) - Value(l, y, rb)
  {
    HandValue(k, x, ra);
    HandValue(l, y, rb);
    ValueBound(k, x, ra);
    ValueBound(l, y, rb);
  }

  /** The hand newHand builds, by kind and ranks. */
  lemma EncodeOf(s: string, mode: bool)
    requires ValidHand(s)
    ensures Encode(s, mode) == HandOf(Bits(Best(s, mode)).0, Bits(Best(s, mode)).1, Ranks(s, mode))
  {
  }

  /** The digit strings of two hands compare as the game orders hands by
      kind and ranks. */
  lemma DigitsLex(p: Kind, ra: seq<int>, q: Kind, rb: seq<int>)
    requires |ra| == 5 && Ranked(ra) && |rb| == 5 && Ranked(rb)
    ensures Digits([Top(p)] + ra) && Digits([Top(q)] + rb)
    ensures Lex([Top(p)] + ra, [Top(q)] + rb) <==> Strength(p) < Strength(q) || (p == q && Lex(ra, rb))
    ensures [Top(p)] + ra == [Top(q)] + rb <==> p == q && ra == rb
  {
    var da, db := [Top(p)] + ra, [Top(q)] + rb;
    BitsOrder(p, q);
    assert da[1..] == ra && db[1..] == rb;
  }

  /** Sorting by cmp orders hands as the game does: cmp is negative
      exactly when the first hand ranks lower, and zero only for equal
      hands. */
  lemma HandOrder(s: string, t: string, mode: bool)
    requires ValidHand(s) && ValidHand(t)
    ensures Cmp(Encode(s, mode), Encode(t, mode)) < 0 <==> Before(s, t, mode)
    ensures Cmp(Encode(s, mode), Encode(t, mode)) == 0 <==> s == t
  {
    var p, q := Best(s, mode), Best(t, mode);
    var ra, rb := Ranks(s, mode), Ranks(t, mode);
    EncodeOf(s, mode);
    EncodeOf(t, mode);
    TopValue(p, ra);
    TopValue(q, rb);
    CmpValues(Bits(p).0, Bits(p).1, ra, Bits(q).0, Bits(q).1, rb);
    DigitsLex(p, ra, q, rb);
    HornerLex([Top(p)] + ra, [Top(q)] + rb);
    if ra == rb {
      RanksInjective(s, t, mode);
    }
  }

  /** The card fields are three bits wide, narrower than a rank: get on
      a card field does not give back a rank above 7, and set over a card
      field that is not blank keeps the old rank's top bit. newHand only
      writes each card once over blank bits and never reads them back with
      get, so the width does not matter there. */
  lemma CardMaskShort()
    ensures Get(Set(0, C0, 13), C0) == 5
    ensures Set(Put(0, C0, 8), C0, 5) == Put(0, C0, 13)
  {
    WordSmall(13);
    WordSmall(5);
  }
}
