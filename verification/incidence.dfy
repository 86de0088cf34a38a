/** Mirror lines in a terrain grid (2023/13/aoc13.go): the Go port of the
    linear palindrome scan over packed rows, the reading of its result as
    reflection lines, and the 32x32 bit matrix the rows are packed in. */
module Incidence {
  import P = Palindromes

  /** fastLongestPalindrome: the scan of fastpal.py
      (Palindromes.FastLongestPalindromes) over packed rows. The backward
      mirror loop is Palindromes.MirrorBack; its shared-edge exit is Go's `continue SCAN`, which skips the `pallen = 1;
      i++` step that follows the inner loop. The closing pass is the one of
      fastpal.py (Palindromes.FinishScan). */
  method FastLongestPalindrome(q: seq<bv32>) returns (l: seq<nat>)
    ensures |l| == 2 * |q| + 1
    ensures forall i :: 0 <= i < |l| ==> P.LongestAt(q, i, l[i])
    ensures l == P.NaiveLongestPalindromes(q)
  {
    l := [];
    var i, pallen := 0, 0;
    while i < |q|
      invariant 0 <= pallen <= i <= |q|
      invariant |l| == 2 * i - pallen
      invariant P.PalRange(q, i - pallen, i)
      invariant P.AllLongest(q, l)
      decreases |q| - i, 2 * |q| + 1 - |l|
    {
      if i > pallen && q[i - pallen - 1] == q[i] {
        P.Extend(q, i, pallen);
        pallen := pallen + 2;
        i := i + 1;
        continue;
      }
      P.AppendLongest(q, l, pallen, i);
      l := l + [pallen];
      var edge;
      l, edge := P.MirrorBack(q, l, i, pallen);
      if edge.Some? {
        pallen := edge.value;
        continue;
      }
      P.Single(q, i);
      pallen := 1;
      i := i + 1;
    }
    l := P.FinishScan(q, l, pallen);
  }

  /** The storage order of an area: Go's RC (row major, false) and CR
      (column major, true). */
  datatype Order = RowMajor | ColMajor

  /** Entry i of a radii array s is a reflection line of a pattern H rows
      high when i is an even centre (a pivot between rows i/2 - 1 and i/2)
      whose palindrome, rows [i/2 - s[i]/2, i/2 + s[i]/2), is at least two
      rows long and reaches the first or the last row. */
  predicate Reflects(s: seq<int>, H: int, i: int)
    requires 0 <= i < |s|
  {
    i % 2 == 0 && s[i] > 1 && (i / 2 - s[i] / 2 == 0 || i / 2 + s[i] / 2 == H)
  }

  /** The puzzle's value of the reflection at centre i: 100 times the rows
      above it when rows are stored, and the columns left of it when the
      (transposed, reversed) columns are stored. */
  function Score(ord: Order, H: int, i: int): int {
    match ord
    case RowMajor => i / 2 * 100
    case ColMajor => H - i / 2
  }

  /** Scores of the first n centres, in the order the loop of scan finds
      them, computed with the source's half, l and r. The divisions are
      exact or of non-negative numbers, so Go's truncation does not show. */
  function Collect(s: seq<int>, ord: Order, H: int, n: nat): seq<int>
    requires n <= |s|
  {
    if n == 0 then []
    else
      var i := n - 1;
      var m := Collect(s, ord, H, i);
      if i % 2 == 0 && s[i] > 1 then
        var half, l, r := s[i] / 2 - 1, (i - 2) / 2, i / 2;
        if l - half == 0 || r + half == H - 1 then
          m + [match ord case RowMajor => r * 100 case ColMajor => H - r]
        else m
      else m
  }

  /** Scores listed in the order of their centres: increasing for rows,
      decreasing for columns. */
  predicate Ordered(ord: Order, m: seq<int>) {
    forall a, b :: 0 <= a < b < |m| ==> Precedes(ord, m[a], m[b])
  }

  /** scan: every reflection line, as scores, or ([-1], false) when there
      is none. */
  function Scan(s: seq<int>, ord: Order, H: int): (r: (seq<int>, bool))
    ensures r.1 <==> exists i :: 0 <= i < |s| && Reflects(s, H, i)
    ensures !r.1 ==> r.0 == [-1]
    ensures r.1 ==> forall m :: m in r.0 <==>
                      exists i :: 0 <= i < |s| && Reflects(s, H, i) && m == Score(ord, H, i)
    ensures r.1 ==> Ordered(ord, r.0)
  {
    CollectReflections(s, ord, H, |s|);
    var m := Collect(s, ord, H, |s|);
    if |m| > 0 then (m, true) else ([-1], false)
  }

  /** The source's test on half, l and r is the reflection test. */
  lemma PivotTest(s: seq<int>, H: int, i: nat)
    requires i < |s| && i % 2 == 0 && s[i] > 1
    ensures var half, l, r := s[i] / 2 - 1, (i - 2) / 2, i / 2;
      (l - half == 0 || r + half == H - 1) <==> Reflects(s, H, i)
  {
    assert (i - 2) / 2 == i / 2 - 1;
  }

  /** x is listed before y: scores grow along rows and shrink along columns. */
  predicate Precedes(ord: Order, x: int, y: int) {
    match ord
    case RowMajor => x < y
    case ColMajor => x > y
  }

  /** Collect lists exactly the scores of the reflecting centres below n,
      in order, and is empty exactly when there are none. */
  lemma {:induction false} CollectReflections(s: seq<int>, ord: Order, H: int, n: nat)
    requires n <= |s|
    ensures var m := Collect(s, ord, H, n);
      (|m| > 0 <==> exists i :: 0 <= i < n && Reflects(s, H, i)) &&
      (forall x :: x in m <==> exists i :: 0 <= i < n && Reflects(s, H, i) && x == Score(ord, H, i)) &&
      Ordered(ord, m)
  {
    if n > 0 {
      var i := n - 1;
      CollectReflections(s, ord, H, i);
      var m := Collect(s, ord, H, i);
      if i % 2 == 0 && s[i] > 1 {
        PivotTest(s, H, i);
        if Reflects(s, H, i) {
          assert Collect(s, ord, H, n) == m + [Score(ord, H, i)];
          forall a | 0 <= a < |m| ensures Precedes(ord, m[a], Score(ord, H, i)) {
            assert m[a] in m;
          }
        }
      }
    }
  }

  /** bitarray32: 32 rows of 32 bits, row j bit i being cell (j, i). */
  type BitArray = a: seq<bv32> | |a| == 32 witness seq(32, _ => 0)

  /** A shift count below 32 as a 5-bit amount, counted up one at a time
      so that the solver does not have to convert integers to bit-vectors. */
  function Count(n: nat): bv5
    requires n < 32
  {
    if n == 0 then 0 else Count(n - 1) + 1
  }

  lemma {:induction false} CountValue(n: nat)
    requires n < 32
    ensures Count(n) as int == n
  {
    if n > 0 {
      CountValue(n - 1);
    }
  }

  /** Go's `x << n` and `x >> n` on uint32: a count of 32 or more gives 0. */
  function Shl(x: bv32, n: nat): bv32 {
    if n < 32 then x << Count(n) else 0
  }

  function Shr(x: bv32, n: nat): bv32 {
    if n < 32 then x >> Count(n) else 0
  }

  /** get: bit i of row j, as 0 or 1. Go panics on a row outside [0, 32)
      and on a negative shift count, hence the requires. */
  function Get(ba: BitArray, j: int, i: int): (b: int)
    requires 0 <= j < 32 && 0 <= i
    ensures b == 0 || b == 1
    ensures i >= 32 ==> b == 0
  {
    if Shr(ba[j], i) & 1 == 1 then 1 else 0
  }

  /** set: `BA[j] |= 1 << i`. */
  function Set(ba: BitArray, j: int, i: int): (r: BitArray)
    requires 0 <= j < 32 && 0 <= i
    ensures forall k :: 0 <= k < 32 && k != j ==> r[k] == ba[k]
    ensures i >= 32 ==> r == ba
  {
    ba[j := ba[j] | Shl(1, i)]
  }

  /** clear: `BA[j] &= ^(1 << i)`. */
  function Clear(ba: BitArray, j: int, i: int): (r: BitArray)
    requires 0 <= j < 32 && 0 <= i
    ensures forall k :: 0 <= k < 32 && k != j ==> r[k] == ba[k]
    ensures i >= 32 ==> r == ba
  {
    ba[j := ba[j] & !Shl(1, i)]
  }

  /** flip: `BA[j] ^= 1 << i`. */
  function Flip(ba: BitArray, j: int, i: int): (r: BitArray)
    requires 0 <= j < 32 && 0 <= i
    ensures forall k :: 0 <= k < 32 && k != j ==> r[k] == ba[k]
    ensures i >= 32 ==> r == ba
  {
    ba[j := ba[j] ^ Shl(1, i)]
  }

  /** Bit c' of a word after or-ing, and-not-ing or xor-ing in bit c: one
      fact per lemma, since the solver handles them best one at a time. */
  lemma OrSame(x: bv32, c: bv5)
    ensures ((x | (1 << c)) >> c) & 1 == 1
  {
  }

  lemma OrOther(x: bv32, c: bv5, c': bv5)
    requires c != c'
    ensures ((x | (1 << c)) >> c') & 1 == (x >> c') & 1
  {
  }

  lemma AndNotSame(x: bv32, c: bv5)
    ensures ((x & !(1 << c)) >> c) & 1 == 0
  {
  }

  /** Clearing the bits of m is setting them and then toggling them. */
  lemma ClearIsOrXor(x: bv32, m: bv32)
    ensures x & !m == (x | m) ^ m
  {
  }

  lemma AndNotOther(x: bv32, c: bv5, c': bv5)
    requires c != c'
    ensures ((x & !(1 << c)) >> c') & 1 == (x >> c') & 1
  {
    var m: bv32 := 1 << c;
    ClearIsOrXor(x, m);
    OrOther(x, c, c');
    XorOther(x | m, c, c');
  }

  lemma XorSame(x: bv32, c: bv5)
    ensures ((x ^ (1 << c)) >> c) & 1 == 1 - (x >> c) & 1
  {
  }

  lemma XorOther(x: bv32, c: bv5, c': bv5)
    requires c != c'
    ensures ((x ^ (1 << c)) >> c') & 1 == (x >> c') & 1
  {
  }

  /** Distinct counts below 32 are distinct shift amounts. */
  lemma CountBits(i: nat, i': nat)
    requires i < 32 && i' < 32 && i != i'
    ensures Count(i) != Count(i')
  {
    CountValue(i);
    CountValue(i');
  }

  /** After set, the cell reads 1; the other cells of its row keep their values
      (the other rows are unchanged by Set's own contract). */
  lemma GetSet(ba: BitArray, j: int, i: int)
    requires 0 <= j < 32 && 0 <= i < 32
    ensures Get(Set(ba, j, i), j, i) == 1
  {
    OrSame(ba[j], Count(i));
  }

  lemma GetSetOther(ba: BitArray, j: int, i: int, i': int)
    requires 0 <= j < 32 && 0 <= i < 32 && 0 <= i' < 32 && i != i'
    ensures Get(Set(ba, j, i), j, i') == Get(ba, j, i')
  {
    CountBits(i, i');
    OrOther(ba[j], Count(i), Count(i'));
  }

  /** After clear, the cell reads 0; the other cells of its row keep their values
      (the other rows are unchanged by Clear's own contract). */
  lemma GetClear(ba: BitArray, j: int, i: int)
    requires 0 <= j < 32 && 0 <= i < 32
    ensures Get(Clear(ba, j, i), j, i) == 0
  {
    AndNotSame(ba[j], Count(i));
  }

  lemma GetClearOther(ba: BitArray, j: int, i: int, i': int)
    requires 0 <= j < 32 && 0 <= i < 32 && 0 <= i' < 32 && i != i'
    ensures Get(Clear(ba, j, i), j, i') == Get(ba, j, i')
  {
    CellAndNotOther(ba[j], i, i');
  }

  /** AndNotOther with Go's shift counts. */
  lemma CellAndNotOther(x: bv32, i: nat, i': nat)
    requires i < 32 && i' < 32 && i != i'
    ensures Shr(x & !Shl(1, i), i') & 1 == Shr(x, i') & 1
  {
    CountBits(i, i');
    AndNotOther(x, Count(i), Count(i'));
  }

  /** After flip, the cell reads the other value; the other cells of its row keep their values
      (the other rows are unchanged by Flip's own contract). */
  lemma GetFlip(ba: BitArray, j: int, i: int)
    requires 0 <= j < 32 && 0 <= i < 32
    ensures Get(Flip(ba, j, i), j, i) == 1 - Get(ba, j, i)
  {
    XorSame(ba[j], Count(i));
  }

  lemma GetFlipOther(ba: BitArray, j: int, i: int, i': int)
    requires 0 <= j < 32 && 0 <= i < 32 && 0 <= i' < 32 && i != i'
    ensures Get(Flip(ba, j, i), j, i') == Get(ba, j, i')
  {
    CountBits(i, i');
    XorOther(ba[j], Count(i), Count(i'));
  }

  /** Flipping a cell twice restores the array. */
  lemma FlipFlip(ba: BitArray, j: int, i: int)
    requires 0 <= j < 32 && 0 <= i
    ensures Flip(Flip(ba, j, i), j, i) == ba
  {
    assert ba[j] ^ Shl(1, i) ^ Shl(1, i) == ba[j];
  }

  /** trans32 (Hacker's Delight, section 7-3): five passes with block sizes
      16, 8, 4, 2 and 1. In the pass with block size j each row k with bit j
      clear is paired with row k + j = k ^ j, and the bits of the two rows
      are traded through t = (BA[k] ^ (BA[k + j] >> j)) & m. */
  predicate Block(j: bv5) { j == 16 || j == 8 || j == 4 || j == 2 || j == 1 }

  /** The mask m of the pass with block size j: the bit positions with bit
      j clear. */
  function Mask(j: bv5): bv32
    requires Block(j)
  {
    if j == 16 then 0x0000_FFFF
    else if j == 8 then 0x00FF_00FF
    else if j == 4 then 0x0F0F_0F0F
    else if j == 2 then 0x3333_3333
    else 0x5555_5555
  }

  /** `t << j`, kept behind a name so that the solver meets it as one term. */
  function Up(t: bv32, j: bv5): bv32 {
    t << j
  }

  /** Bit c of a word, and cell (r, c) of an array, with 5-bit indices. */
  function Bit(x: bv32, c: bv5): bv32 {
    (x >> c) & 1
  }

  function Cell(ba: BitArray, r: bv5, c: bv5): bv32 {
    Bit(ba[r as int], c)
  }

  /** t of the inner loop for the pair with lower row x and upper row y. */
  function Trade(x: bv32, y: bv32, j: bv5): bv32
    requires Block(j)
  {
    (x ^ (y >> j)) & Mask(j)
  }

  /** Row k after the pass with block size j: a row with bit j clear is the
      lower row of its pair (k, k ^ j) and takes t from the upper one; the
      upper row takes t back shifted up by j. */
  function PassRow(ba: BitArray, k: bv5, j: bv5): bv32
    requires Block(j)
  {
    if k & j == 0 then ba[k as int] ^ Trade(ba[k as int], ba[(k ^ j) as int], j)
    else ba[k as int] ^ Up(Trade(ba[(k ^ j) as int], ba[k as int], j), j)
  }

  /** One round of the inner loop. The pairs are disjoint, so the order in
      which the loop visits them does not matter (NextRowSkips shows it
      visits each lower row once). */
  function Pass(ba: BitArray, j: bv5): (r: BitArray)
    requires Block(j)
  {
    seq(32, k requires 0 <= k < 32 => PassRow(ba, Count(k), j))
  }

  /** Bit c of the lower row after its trade: the upper row's bit c + j where
      bit j of c is clear, its own bit otherwise. */
  lemma LowShifted(x: bv32, y: bv32, j: bv5, c: bv5)
    requires Block(j) && c & j == 0
    ensures Bit(x ^ Trade(x, y, j), c) == Bit(y, c ^ j)
  {
  }

  lemma LowKept(x: bv32, y: bv32, j: bv5, c: bv5)
    requires Block(j) && c & j != 0
    ensures Bit(x ^ Trade(x, y, j), c) == Bit(x, c)
  {
  }

  /** Bit c of the upper row after its trade: the lower row's bit c - j where
      bit j of c is set, its own bit otherwise. */
  lemma HighShifted(x: bv32, y: bv32, j: bv5, c: bv5)
    requires Block(j) && c & j != 0
    ensures Bit(y ^ Up(Trade(x, y, j), j), c) == Bit(x, c ^ j)
  {
  }

  lemma HighKept(x: bv32, y: bv32, j: bv5, c: bv5)
    requires Block(j) && c & j == 0
    ensures Bit(y ^ Up(Trade(x, y, j), j), c) == Bit(y, c)
  {
  }

  /** A cell position with 5-bit row and column. */
  datatype Pos = Pos(r: bv5, c: bv5)

  /** A pass moves cell (r, c) along bit j of both indices exactly when they
      agree in that bit. */
  function Step(p: Pos, j: bv5): Pos {
    if (p.r & j == 0) == (p.c & j == 0) then Pos(p.r ^ j, p.c ^ j) else p
  }

  lemma PassCell(ba: BitArray, j: bv5, r: bv5, c: bv5)
    requires Block(j)
    ensures Cell(Pass(ba, j), r, c) == Cell(ba, Step(Pos(r, c), j).r, Step(Pos(r, c), j).c)
  {
    if r & j == 0 {
      if c & j == 0 {
        LowShiftedCell(ba, j, r, c);
      } else {
        LowKeptCell(ba, j, r, c);
      }
    } else {
      if c & j != 0 {
        HighShiftedCell(ba, j, r, c);
      } else {
        HighKeptCell(ba, j, r, c);
      }
    }
  }

  /** PassCell for each of the four cases of row and column bit. */
  lemma LowShiftedCell(ba: BitArray, j: bv5, r: bv5, c: bv5)
    requires Block(j) && r & j == 0 && c & j == 0
    ensures Cell(Pass(ba, j), r, c) == Cell(ba, r ^ j, c ^ j)
  {
    var x, y := ba[r as int], ba[(r ^ j) as int];
    CellPass(ba, j, r, c);
    assert PassRow(ba, r, j) == x ^ Trade(x, y, j);
    LowShifted(x, y, j, c);
  }

  lemma LowKeptCell(ba: BitArray, j: bv5, r: bv5, c: bv5)
    requires Block(j) && r & j == 0 && c & j != 0
    ensures Cell(Pass(ba, j), r, c) == Cell(ba, r, c)
  {
    CellPass(ba, j, r, c);
    LowKept(ba[r as int], ba[(r ^ j) as int], j, c);
  }

  lemma HighShiftedCell(ba: BitArray, j: bv5, r: bv5, c: bv5)
    requires Block(j) && r & j != 0 && c & j != 0
    ensures Cell(Pass(ba, j), r, c) == Cell(ba, r ^ j, c ^ j)
  {
    CellPass(ba, j, r, c);
    HighShifted(ba[(r ^ j) as int], ba[r as int], j, c);
  }

  lemma HighKeptCell(ba: BitArray, j: bv5, r: bv5, c: bv5)
    requires Block(j) && r & j != 0 && c & j == 0
    ensures Cell(Pass(ba, j), r, c) == Cell(ba, r, c)
  {
    CellPass(ba, j, r, c);
    HighKept(ba[(r ^ j) as int], ba[r as int], j, c);
  }

  /** A cell of a pass, read off PassRow's word. */
  lemma CellPass(ba: BitArray, j: bv5, r: bv5, c: bv5)
    requires Block(j)
    ensures Cell(Pass(ba, j), r, c) == Bit(PassRow(ba, r, j), c)
  {
    PassAt(ba, j, r);
  }

  /** Row r of a pass is PassRow's word for r. */
  lemma PassAt(ba: BitArray, j: bv5, r: bv5)
    requires Block(j)
    ensures Pass(ba, j)[r as int] == PassRow(ba, r, j)
  {
    var k := r as int;
    CountValue(k);
    assert Count(k) as int == k;
  }

  /** trans32: the five rounds of the outer loop; MaskSteps shows the masks
      are those `m ^= m << j` produces. */
  function Trans32(ba: BitArray): (r: BitArray) {
    Pass(Pass(Pass(Pass(Pass(ba, 16), 8), 4), 2), 1)
  }

  /** Taken over all five bits, the steps send (r, c) to (31 - c, 31 - r). */
  lemma Steps(r: bv5, c: bv5)
    ensures Step(Step(Step(Step(Step(Pos(r, c), 1), 2), 4), 8), 16) == Pos(!c, !r)
  {
  }

  /** Cell (r, c) of trans32's result is cell (31 - c, 31 - r) of its input:
      trans32 transposes about the anti-diagonal in the bit order get uses. */
  lemma Trans32Cell(ba: BitArray, r: bv5, c: bv5)
    ensures Cell(Trans32(ba), r, c) == Cell(ba, !c, !r)
  {
    var b8 := Pass(ba, 16);
    var b4 := Pass(b8, 8);
    var b2 := Pass(b4, 4);
    var b1 := Pass(b2, 2);
    var p1 := Step(Pos(r, c), 1);
    var p2 := Step(p1, 2);
    var p4 := Step(p2, 4);
    var p8 := Step(p4, 8);
    PassCell(b1, 1, r, c);
    PassCell(b2, 2, p1.r, p1.c);
    PassCell(b4, 4, p2.r, p2.c);
    PassCell(b8, 8, p4.r, p4.c);
    PassCell(ba, 16, p8.r, p8.c);
    Steps(r, c);
  }

  /** Applied twice, trans32 gives back the array it started from. */
  lemma Trans32Twice(ba: BitArray)
    ensures Trans32(Trans32(ba)) == ba
  {
    forall k | 0 <= k < 32
      ensures Trans32(Trans32(ba))[k] == ba[k]
    {
      TwiceRow(ba, k);
    }
  }

  /** Applied twice, trans32 restores row k. */
  lemma TwiceRow(ba: BitArray, k: nat)
    requires k < 32
    ensures Trans32(Trans32(ba))[k] == ba[k]
  {
    var x, y := Trans32(Trans32(ba))[k], ba[k];
    var c := LowestSet(x ^ y);
    CountValue(k);
    TwiceCell(ba, Count(k), c);
    SameWord(x, y, c);
  }

  /** The position of the lowest set bit of d (31 when d is zero), found by
      halving the search window five times. */
  function LowestSet(d: bv32): bv5 {
    var a: bv5 := if d & 0xFFFF == 0 then 16 else 0;
    var d1 := d >> a;
    var b: bv5 := if d1 & 0xFF == 0 then 8 else 0;
    var d2 := d1 >> b;
    var c: bv5 := if d2 & 0xF == 0 then 4 else 0;
    var d3 := d2 >> c;
    var e: bv5 := if d3 & 0x3 == 0 then 2 else 0;
    var d4 := d3 >> e;
    var f: bv5 := if d4 & 0x1 == 0 then 1 else 0;
    a + b + c + e + f
  }

  /** Words that agree at the lowest bit where they could differ are equal. */
  lemma SameWord(x: bv32, y: bv32, c: bv5)
    requires c == LowestSet(x ^ y) && Bit(x, c) == Bit(y, c)
    ensures x == y
  {
    XorBit(x, y, c);
    ZeroWord(x ^ y);
  }

  /** Bit c of x ^ y is the xor of the two bits c. */
  lemma XorBit(x: bv32, y: bv32, c: bv5)
    ensures Bit(x ^ y, c) == Bit(x, c) ^ Bit(y, c)
  {
  }

  /** A word whose lowest set bit reads 0 has no set bit. */
  lemma ZeroWord(d: bv32)
    requires Bit(d, LowestSet(d)) == 0
    ensures d == 0
  {
  }

  /** Applied twice, trans32 restores every cell. */
  lemma TwiceCell(ba: BitArray, r: bv5, c: bv5)
    ensures Cell(Trans32(Trans32(ba)), r, c) == Cell(ba, r, c)
  {
    Trans32Cell(Trans32(ba), r, c);
    Trans32Cell(ba, !c, !r);
  }

  /** The 5-bit complement of a count n is the count 31 - n. */
  lemma CountFlip(n: nat)
    requires n < 32
    ensures Count(31 - n) == !Count(n)
  {
    CountValue(n);
    CountValue(31 - n);
    Complement(Count(n));
    SameValue(Count(31 - n), !Count(n));
  }

  /** Complement and conversion to int commute as they should for 5 bits. */
  lemma Complement(x: bv5)
    ensures (!x) as int == 31 - x as int
  {
  }

  /** 5-bit words with the same int value are equal. */
  lemma SameValue(x: bv5, y: bv5)
    requires x as int == y as int
    ensures x == y
  {
  }

  /** Cell (j, i) of trans32's result is cell (31 - i, 31 - j) of its input. */
  lemma Trans32Get(ba: BitArray, j: int, i: int)
    requires 0 <= j < 32 && 0 <= i < 32
    ensures Get(Trans32(ba), j, i) == Get(ba, 31 - i, 31 - j)
  {
    CountFlip(i);
    CountFlip(j);
    Trans32Cell(ba, Count(j), Count(i));
    MirrorGet(Trans32(ba), ba, j, i);
  }

  /** Get reads mirrored cells of a and b alike when their bit cells agree. */
  lemma MirrorGet(a: BitArray, b: BitArray, j: int, i: int)
    requires 0 <= j < 32 && 0 <= i < 32
    requires Cell(a, Count(j), Count(i)) == Cell(b, Count(31 - i), Count(31 - j))
    ensures Get(a, j, i) == Get(b, 31 - i, 31 - j)
  {
    GetCell(a, j, i);
    GetCell(b, 31 - i, 31 - j);
  }

  /** Get in terms of the bit-vector cell it reads. */
  lemma GetCell(ba: BitArray, j: int, i: int)
    requires 0 <= j < 32 && 0 <= i < 32
    ensures Get(ba, j, i) == if Cell(ba, Count(j), Count(i)) == 1 then 1 else 0
  {
    CountValue(j);
  }

  /** The inner loop's step `k = (k + j + 1) &^ j`, over a byte because k
      reaches 32. */
  function NextRow(k: bv8, j: bv8): bv8 {
    (k + j + 1) & !j
  }

  /** Bit j of k is set: k is the upper row of its pair. */
  predicate Upper(k: bv8, j: bv8) {
    k & j != 0
  }

  /** From a lower row below 32, the step reaches the next lower row (or 32)
      and skips exactly the upper rows in between: the inner loop visits each
      lower row once, in increasing order. */
  lemma NextRowSkips(k: bv8, j: bv8)
    requires j == 16 || j == 8 || j == 4 || j == 2 || j == 1
    requires k < 32 && !Upper(k, j)
    ensures k < NextRow(k, j) <= 32 && !Upper(NextRow(k, j), j)
    ensures forall x: bv8 :: k < x < NextRow(k, j) ==> Upper(x, j)
  {
  }

  /** The masks of the five rounds are those the outer loop's
      `j >>= 1; m ^= m << j` produces from 0x0000FFFF. */
  lemma MaskSteps()
    ensures Mask(16) == 0x0000_FFFF
    ensures Mask(8) == Mask(16) ^ (Mask(16) << 8)
    ensures Mask(4) == Mask(8) ^ (Mask(8) << 4)
    ensures Mask(2) == Mask(4) ^ (Mask(4) << 2)
    ensures Mask(1) == Mask(2) ^ (Mask(2) << 1)
  {
  }

  /** "yabadabadoo" as offsets from 'a', the example in the comment of main,
      and the radii that comment gives for it. */
  const Yabadabadoo: seq<bv32> := [24, 0, 1, 0, 3, 0, 1, 0, 3, 14, 14]
  const YabadabadooRadii: seq<nat> := [0, 1, 0, 1, 0, 3, 0, 1, 0, 7, 0, 1, 0, 5, 0, 1, 0, 1, 0, 1, 2, 1, 0]

  lemma ExampleRadius0to3(q: seq<bv32>, x: nat)
    requires q == Yabadabadoo && 0 <= x <= 3
    ensures P.Radius(q, x) == YabadabadooRadii[x]
  {
    if x == 0 {
      assert P.Expand(q, 0, 0) == (0, 0);
    } else if x == 1 {
      assert P.Expand(q, 0, 1) == (0, 1);
    } else if x == 2 {
      assert P.Expand(q, 1, 1) == (1, 1);
    } else {
      assert P.Expand(q, 1, 2) == (1, 2);
    }
  }

  lemma ExampleRadius4to7(q: seq<bv32>, x: nat)
    requires q == Yabadabadoo && 4 <= x <= 7
    ensures P.Radius(q, x) == YabadabadooRadii[x]
  {
    if x == 4 {
      assert P.Expand(q, 2, 2) == (2, 2);
    } else if x == 5 {
      assert P.Expand(q, 2, 3) == P.Expand(q, 1, 4) == (1, 4);
    } else if x == 6 {
      assert P.Expand(q, 3, 3) == (3, 3);
    } else {
      assert P.Expand(q, 3, 4) == (3, 4);
    }
  }

  lemma ExampleRadius8to11(q: seq<bv32>, x: nat)
    requires q == Yabadabadoo && 8 <= x <= 11
    ensures P.Radius(q, x) == YabadabadooRadii[x]
  {
    if x == 8 {
      assert P.Expand(q, 4, 4) == (4, 4);
    } else if x == 9 {
      assert P.Expand(q, 4, 5) == P.Expand(q, 3, 6) == P.Expand(q, 2, 7) == P.Expand(q, 1, 8) == (1, 8);
    } else if x == 10 {
      assert P.Expand(q, 5, 5) == (5, 5);
    } else {
      assert P.Expand(q, 5, 6) == (5, 6);
    }
  }

  lemma ExampleRadius12to15(q: seq<bv32>, x: nat)
    requires q == Yabadabadoo && 12 <= x <= 15
    ensures P.Radius(q, x) == YabadabadooRadii[x]
  {
    if x == 12 {
      assert P.Expand(q, 6, 6) == (6, 6);
    } else if x == 13 {
      assert P.Expand(q, 6, 7) == P.Expand(q, 5, 8) == P.Expand(q, 4, 9) == (4, 9);
    } else if x == 14 {
      assert P.Expand(q, 7, 7) == (7, 7);
    } else {
      assert P.Expand(q, 7, 8) == (7, 8);
    }
  }

  lemma ExampleRadius16to19(q: seq<bv32>, x: nat)
    requires q == Yabadabadoo && 16 <= x <= 19
    ensures P.Radius(q, x) == YabadabadooRadii[x]
  {
    if x == 16 {
      assert P.Expand(q, 8, 8) == (8, 8);
    } else if x == 17 {
      assert P.Expand(q, 8, 9) == (8, 9);
    } else if x == 18 {
      assert P.Expand(q, 9, 9) == (9, 9);
    } else {
      assert P.Expand(q, 9, 10) == (9, 10);
    }
  }

  lemma ExampleRadius20to22(q: seq<bv32>, x: nat)
    requires q == Yabadabadoo && 20 <= x <= 22
    ensures P.Radius(q, x) == YabadabadooRadii[x]
  {
    if x == 20 {
      assert P.Expand(q, 10, 10) == P.Expand(q, 9, 11) == (9, 11);
    } else if x == 21 {
      assert P.Expand(q, 10, 11) == (10, 11);
    } else {
      assert P.Expand(q, 11, 11) == (11, 11);
    }
  }

  /** The example of main: both scans give the radii its comment lists. */
  lemma YabadabadooExample()
    ensures P.NaiveLongestPalindromes(Yabadabadoo) == YabadabadooRadii
  {
    var q := Yabadabadoo;
    forall x | 0 <= x <= 2 * |q| ensures P.NaiveLongestPalindromes(q)[x] == YabadabadooRadii[x] {
      P.NaiveIsRadius(q, x);
      if x <= 3 {
        ExampleRadius0to3(q, x);
      } else if x <= 7 {
        ExampleRadius4to7(q, x);
      } else if x <= 11 {
        ExampleRadius8to11(q, x);
      } else if x <= 15 {
        ExampleRadius12to15(q, x);
      } else if x <= 19 {
        ExampleRadius16to19(q, x);
      } else {
        ExampleRadius20to22(q, x);
      }
    }
  }
}
