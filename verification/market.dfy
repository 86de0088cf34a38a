/** Monkey market (2024/22/aoc22.go): every buyer's secret number is
    rehashed NLOOP times; the last digit of each secret is a price, and
    the last four price changes, packed five bits each, form a key under
    which the price is credited the first time a buyer meets that key. */
module Market {
  import opened GoInt
  import opened Binary
  import opened Wrappers

  const VOFF: int := 9
  const NLOOP: int := 2000
  const MAXDIM: int := 0xF_FFFF
  /** The key's shift per round and its width: MAXDIM is 2^KEYBITS - 1. */
  const STEP: nat := 5
  const KEYBITS: nat := 20
  /** The first round rehash credits: its test `i > 3` is round i + 1. */
  const FIRST: nat := 5

  /* hash */

  /** a ^ m for a mask m below 2^k: the k low bits are xored, the rest of
      a is kept. */
  function Mix(a: nat, m: nat, k: nat): nat
    requires m < Pow2(k)
  {
    Shift(a, k) * Pow2(k) + Bitwise(Xor, a, m, k)
  }

  /** Mix is Go's `^` on every bit. */
  lemma MixBit(a: nat, m: nat, k: nat, i: nat)
    requires m < Pow2(k)
    ensures Bit(Mix(a, m, k), i) == Apply(Xor, Bit(a, i), Bit(m, i))
  {
    var x, hi, lo := Mix(a, m, k), Shift(a, k), Bitwise(Xor, a, m, k);
    SplitBit(x, hi, lo, k, i);
    if i < k {
      BitwiseBit(Xor, a, m, k, i);
    } else {
      MixBitHigh(a, m, k, i);
    }
  }

  lemma MixBitHigh(a: nat, m: nat, k: nat, i: nat)
    requires m < Pow2(k) && i >= k
    ensures Bit(Shift(a, k), i - k) == Apply(Xor, Bit(a, i), Bit(m, i))
  {
    BitShift(a, k, i - k);
    BitHigh(m, k, i);
    XorZero(Bit(a, i));
  }

  lemma SplitBit(x: nat, hi: nat, lo: nat, k: nat, i: nat)
    requires lo < Pow2(k) && x == hi * Pow2(k) + lo
    ensures Bit(x, i) == if i < k then Bit(lo, i) else Bit(hi, i - k)
  {
    BitSplit(hi, lo, k, i);
  }

  lemma XorZero(b: nat)
    requires b < 2
    ensures Apply(Xor, b, 0) == b
  {
  }

  /** Xoring a k-bit mask keeps the bits from k up. */
  lemma MixHigh(a: nat, m: nat, k: nat)
    requires m < Pow2(k)
    ensures Shift(Mix(a, m, k), k) == Shift(a, k)
    ensures a < Pow2(k) ==> Mix(a, m, k) < Pow2(k)
  {
    ShiftSplit(Shift(a, k), Bitwise(Xor, a, m, k), k);
    if a < Pow2(k) {
      ShiftSplit(0, a, k);
    }
  }

  /** x << s. */
  function Up(x: nat, s: nat): nat {
    x * Pow2(s)
  }

  /** hash: three xorshift steps, each masked to 24 bits. */
  function Hash(a: nat): nat {
    var a1 := Mix(a, Low(Up(a, 6), 24), 24);
    var a2 := Mix(a1, Low(Shift(a1, 5), 24), 24);
    Mix(a2, Low(Up(a2, 11), 24), 24)
  }

  /** hash keeps [0, 2^24) and, beyond it, leaves the bits from 24 up
      alone. */
  lemma HashRange(a: nat)
    ensures Shift(Hash(a), 24) == Shift(a, 24)
    ensures a < Pow2(24) ==> Hash(a) < Pow2(24)
  {
    var a1 := Mix(a, Low(Up(a, 6), 24), 24);
    var a2 := Mix(a1, Low(Shift(a1, 5), 24), 24);
    MixHigh(a, Low(Up(a, 6), 24), 24);
    MixHigh(a1, Low(Shift(a1, 5), 24), 24);
    MixHigh(a2, Low(Up(a2, 11), 24), 24);
  }

  /* The secrets, prices and keys of one buyer. */

  /** The secret after i rehashes. */
  function Secret(a: nat, i: nat): nat {
    if i == 0 then a else Hash(Secret(a, i - 1))
  }

  /** The prices, the secrets' last digits, from round 0 to round n. */
  function Prices(a: nat, n: nat): (ps: seq<nat>)
    ensures |ps| == n + 1
  {
    if n == 0 then [a % 10] else Prices(a, n - 1) + [Secret(a, n) % 10]
  }

  lemma {:induction false} PricesAt(a: nat, n: nat, j: nat)
    requires j <= n
    ensures Prices(a, n)[j] == Secret(a, j) % 10
  {
    if j < n {
      PricesAt(a, n - 1, j);
    }
  }

  predicate Digits(ps: seq<nat>) {
    forall j :: 0 <= j < |ps| ==> ps[j] < 10
  }

  lemma PricesDigits(a: nat, n: nat)
    ensures Digits(Prices(a, n))
  {
    forall j | 0 <= j <= n ensures Prices(a, n)[j] < 10 {
      PricesAt(a, n, j);
    }
  }

  /** The price change into round j, offset by VOFF into [0, 18]. */
  function Change(ps: seq<nat>, j: nat): (d: nat)
    requires Digits(ps) && 0 < j < |ps|
    ensures d <= 2 * VOFF
  {
    ps[j] - ps[j - 1] + VOFF
  }

  /** The running key after t rounds: the previous key moved up five bits
      and masked with MAXDIM, plus the price change. */
  function Key(ps: seq<nat>, t: nat): (k: nat)
    requires Digits(ps) && t < |ps|
    ensures k < MAXDIM
  {
    if t == 0 then 0
    else
      RollBound(Key(ps, t - 1), Change(ps, t));
      Roll(Key(ps, t - 1), Change(ps, t))
  }

  /** One round of the key: ((key << 5) & MAXDIM) + d. */
  function Roll(key: nat, d: nat): nat {
    Low(Up(key, STEP), KEYBITS) + d
  }

  /** The masked shift keeps the key's 15 low bits, moved up five. */
  lemma RollMod(k: nat, d: nat)
    ensures Roll(k, d) == (k % 0x8000) * 32 + d
  {
    Pow2Values();
    assert Up(k, 5) == k * 32;
    var q, r := k / 0x8000, k % 0x8000;
    assert k * 32 == Pow2(20) * q + 32 * r;
    ModUnique(k * 32, Pow2(20), q, 32 * r);
    LowMod(k * 32, 20);
  }

  /** A rolled key indexes the MAXDIM-long tables. */
  lemma RollBound(k: nat, d: nat)
    requires d <= 2 * VOFF
    ensures Roll(k, d) < MAXDIM
  {
    RollMod(k, d);
  }

  /** The last w price changes up to round t, five bits each, the latest
      lowest. */
  function Pack(ps: seq<nat>, t: nat, w: nat): nat
    requires Digits(ps) && t < |ps| && w <= t
  {
    if w == 0 then 0 else Pack(ps, t - 1, w - 1) * 32 + Change(ps, t)
  }

  /** 32^w. */
  function Span(w: nat): nat {
    if w == 0 then 1 else 32 * Span(w - 1)
  }

  lemma {:induction false} PackLess(ps: seq<nat>, t: nat, w: nat)
    requires Digits(ps) && t < |ps| && w <= t
    ensures Pack(ps, t, w) < Span(w)
  {
    if w > 0 {
      PackLess(ps, t - 1, w - 1);
    }
  }

  lemma {:induction false} SpanMono(v: nat, w: nat)
    requires v <= w
    ensures Span(v) <= Span(w)
  {
    if v < w {
      SpanMono(v, w - 1);
    }
  }

  /** A full window is the four changes as base-32 digits. */
  lemma PackFour(ps: seq<nat>, t: nat)
    requires Digits(ps) && 4 <= t < |ps|
    ensures Pack(ps, t, 4) ==
      Change(ps, t - 3) * 0x8000 + Change(ps, t - 2) * 0x400 + Change(ps, t - 1) * 32 + Change(ps, t)
  {
    var a, b, c, d := Change(ps, t - 3), Change(ps, t - 2), Change(ps, t - 1), Change(ps, t);
    assert Pack(ps, t - 3, 1) == a;
    assert Pack(ps, t - 2, 2) == a * 32 + b;
    assert Pack(ps, t - 1, 3) == (a * 32 + b) * 32 + c;
    assert Pack(ps, t, 4) == ((a * 32 + b) * 32 + c) * 32 + d;
  }

  /** The oldest change of a full window is its top digit. */
  lemma PackTop(ps: seq<nat>, t: nat)
    requires Digits(ps) && 4 <= t < |ps|
    ensures Pack(ps, t, 4) == Change(ps, t - 3) * 0x8000 + Pack(ps, t, 3)
  {
    var a, b, c, d := Change(ps, t - 3), Change(ps, t - 2), Change(ps, t - 1), Change(ps, t);
    assert Pack(ps, t - 3, 1) == a;
    assert Pack(ps, t - 2, 1) == b;
    assert Pack(ps, t - 2, 2) == a * 32 + b;
    assert Pack(ps, t - 1, 2) == b * 32 + c;
    assert Pack(ps, t - 1, 3) == (a * 32 + b) * 32 + c;
    assert Pack(ps, t, 3) == (b * 32 + c) * 32 + d;
  }

  /** How many changes the key of round t holds: all of them, up to four. */
  function Width(t: nat): (w: nat)
    ensures w <= t && w <= 4
  {
    if t < 4 then t else 4
  }

  /** The key of round t packs the last four price changes, or all of
      them in the first three rounds: the mask drops the older ones. */
  lemma {:induction false} KeyWindow(ps: seq<nat>, t: nat)
    requires Digits(ps) && t < |ps|
    ensures Key(ps, t) == Pack(ps, t, Width(t))
  {
    if t > 0 {
      KeyWindow(ps, t - 1);
      if t <= 4 {
        KeyEarly(ps, t);
      } else {
        KeyLate(ps, t);
      }
    }
  }

  /** In the first four rounds the mask drops nothing. */
  lemma KeyEarly(ps: seq<nat>, t: nat)
    requires Digits(ps) && 0 < t <= 4 && t < |ps|
    requires Key(ps, t - 1) == Pack(ps, t - 1, t - 1)
    ensures Key(ps, t) == Pack(ps, t, t)
  {
    var p, d := Pack(ps, t - 1, t - 1), Change(ps, t);
    PackLess(ps, t - 1, t - 1);
    SpanMono(t - 1, 3);
    assert Span(3) == 0x8000;
    RollSmall(p, d);
    assert Key(ps, t) == Roll(p, d);
    assert Pack(ps, t, t) == p * 32 + d;
  }

  /** From round 5 on the mask drops the oldest of five changes. */
  lemma KeyLate(ps: seq<nat>, t: nat)
    requires Digits(ps) && 5 <= t < |ps|
    requires Key(ps, t - 1) == Pack(ps, t - 1, 4)
    ensures Key(ps, t) == Pack(ps, t, 4)
  {
    var c, p, d := Change(ps, t - 4), Pack(ps, t - 1, 3), Change(ps, t);
    PackLess(ps, t - 1, 3);
    assert Span(3) == 0x8000;
    PackTop(ps, t - 1);
    assert Key(ps, t - 1) == c * 0x8000 + p;
    RollTop(c, p, d);
    assert Key(ps, t) == Roll(Key(ps, t - 1), d);
    assert Pack(ps, t, 4) == p * 32 + d;
  }

  /** A key below 2^15 loses nothing to the mask. */
  lemma RollSmall(x: nat, d: nat)
    requires x < 0x8000
    ensures Roll(x, d) == x * 32 + d
  {
    RollMod(x, d);
    ModUnique(x, 0x8000, 0, x);
  }

  /** The mask drops the digit above the key's 15 low bits. */
  lemma RollTop(c: nat, y: nat, d: nat)
    requires y < 0x8000
    ensures Roll(c * 0x8000 + y, d) == y * 32 + d
  {
    RollMod(c * 0x8000 + y, d);
    ModUnique(c * 0x8000 + y, 0x8000, c, y);
  }

  /** Two rounds past the third, of the same buyer or of two, share their
      key exactly when their last four price changes agree. */
  lemma SameKey(ps: seq<nat>, t: nat, qs: seq<nat>, u: nat)
    requires Digits(ps) && 4 <= t < |ps| && Digits(qs) && 4 <= u < |qs|
    ensures Key(ps, t) == Key(qs, u) <==>
      (Change(ps, t - 3), Change(ps, t - 2), Change(ps, t - 1), Change(ps, t)) ==
      (Change(qs, u - 3), Change(qs, u - 2), Change(qs, u - 1), Change(qs, u))
  {
    var a, b, c, d := Change(ps, t - 3), Change(ps, t - 2), Change(ps, t - 1), Change(ps, t);
    var a', b', c', d' := Change(qs, u - 3), Change(qs, u - 2), Change(qs, u - 1), Change(qs, u);
    KeyFour(ps, t);
    KeyFour(qs, u);
    if Key(ps, t) == Key(qs, u) {
      Digits32(a, b, c, d, a', b', c', d');
    }
  }

  /** From round 4 on a key is its last four changes in base 32. */
  lemma KeyFour(ps: seq<nat>, t: nat)
    requires Digits(ps) && 4 <= t < |ps|
    ensures Key(ps, t) ==
      Change(ps, t - 3) * 0x8000 + Change(ps, t - 2) * 0x400 + Change(ps, t - 1) * 32 + Change(ps, t)
  {
    KeyWindow(ps, t);
    PackFour(ps, t);
  }

  /** Base-32 numbers of four digits are equal only digit by digit. */
  lemma Digits32(a: nat, b: nat, c: nat, d: nat, a': nat, b': nat, c': nat, d': nat)
    requires a < 32 && b < 32 && c < 32 && d < 32
    requires a' < 32 && b' < 32 && c' < 32 && d' < 32
    requires a * 0x8000 + b * 0x400 + c * 32 + d == a' * 0x8000 + b' * 0x400 + c' * 32 + d'
    ensures a == a' && b == b' && c == c' && d == d'
  {
    var x := a * 0x8000 + b * 0x400 + c * 32 + d;
    ModUnique(x, 32, a * 0x400 + b * 32 + c, d);
    ModUnique(x, 32, a' * 0x400 + b' * 32 + c', d');
    var y := a * 0x400 + b * 32 + c;
    ModUnique(y, 32, a * 32 + b, c);
    ModUnique(y, 32, a' * 32 + b', c');
    var z := a * 32 + b;
    ModUnique(z, 32, a, b);
    ModUnique(z, 32, a', b');
  }

  /** The first round t in [lo, n] whose key is k. */
  function Find(ps: seq<nat>, lo: nat, n: nat, k: nat): (r: Option<nat>)
    requires Digits(ps) && n < |ps|
    ensures r.Some? ==> lo <= r.value <= n && Key(ps, r.value) == k
    ensures r.Some? ==> forall t :: lo <= t < r.value ==> Key(ps, t) != k
    ensures r.None? ==> forall t :: lo <= t <= n ==> Key(ps, t) != k
    decreases n + 1 - lo
  {
    if lo > n then None
    else if Key(ps, lo) == k then Some(lo)
    else Find(ps, lo + 1, n, k)
  }

  /** One more round finds k if it was found before or if the new key is
      k. */
  lemma {:induction false} FindNext(ps: seq<nat>, lo: nat, n: nat, k: nat)
    requires Digits(ps) && n + 1 < |ps|
    ensures Find(ps, lo, n + 1, k) ==
      if Find(ps, lo, n, k).Some? then Find(ps, lo, n, k)
      else if lo <= n + 1 && Key(ps, n + 1) == k then Some(n + 1)
      else None
    decreases n + 1 - lo
  {
    if lo <= n && Key(ps, lo) != k {
      FindNext(ps, lo + 1, n, k);
    }
  }

  /** The price at the first round in [from, n] whose key is k, or 0. */
  function FirstPrice(ps: seq<nat>, from: nat, n: nat, k: nat): nat
    requires Digits(ps) && n < |ps|
  {
    match Find(ps, from, n, k)
    case Some(t) => ps[t]
    case None => 0
  }

  /** What a buyer of this color adds under key k in the rounds from
      `from` to n: the price at the first of them whose key is k, unless
      the table of colors already holds the color there. */
  function Credit(ps: seq<nat>, from: nat, n: nat, k: nat, seen: int, color: int): nat
    requires Digits(ps) && n < |ps|
  {
    if seen != color then FirstPrice(ps, from, n, k) else 0
  }

  /** One round's update of the tables: in a counted round the price is
      added under the key unless SEEN holds the color there, and the color
      is then stored. Every other key is left alone. */
  function Turn(q: seq<int>, v: seq<int>, key: nat, price: int, color: int, counted: bool)
    : (r: (seq<int>, seq<int>))
    requires |q| == MAXDIM && |v| == MAXDIM && key < MAXDIM
    ensures |r.0| == MAXDIM && |r.1| == MAXDIM
    ensures forall k :: 0 <= k < MAXDIM && k != key ==> r.0[k] == q[k] && r.1[k] == v[k]
    ensures r.1[key] == if counted then color else v[key]
    ensures r.0[key] == q[key] + if counted && v[key] != color then price else 0
  {
    if counted && v[key] != color then (q[key := q[key] + price], v[key := color]) else (q, v)
  }

  /** The tables seqs and SEEN after rounds 1 to t, counting the rounds
      from `from` on. */
  function Tables(ps: seq<nat>, from: nat, t: nat, seqs: seq<int>, seen: seq<int>, color: int)
    : (r: (seq<int>, seq<int>))
    requires Digits(ps) && t < |ps| && |seqs| == MAXDIM && |seen| == MAXDIM
    ensures |r.0| == MAXDIM && |r.1| == MAXDIM
  {
    if t == 0 then (seqs, seen)
    else
      var prev := Tables(ps, from, t - 1, seqs, seen, color);
      Turn(prev.0, prev.1, Key(ps, t), ps[t], color, t >= from)
  }

  /** After t rounds, SEEN holds the color exactly under the keys met in
      a counted round, and seqs has gained, under each key, the price at
      its first counted meeting when SEEN did not hold the color before. */
  lemma {:induction false} TablesFind(ps: seq<nat>, from: nat, t: nat, seqs: seq<int>, seen: seq<int>,
                                      color: int, k: nat)
    requires Digits(ps) && t < |ps| && |seqs| == MAXDIM && |seen| == MAXDIM && k < MAXDIM
    requires from >= 1
    ensures Tables(ps, from, t, seqs, seen, color).1[k] ==
      if Find(ps, from, t, k).Some? then color else seen[k]
    ensures Tables(ps, from, t, seqs, seen, color).0[k] ==
      seqs[k] + Credit(ps, from, t, k, seen[k], color)
  {
    if t > 0 {
      var prev := Tables(ps, from, t - 1, seqs, seen, color);
      var key := Key(ps, t);
      TablesFind(ps, from, t - 1, seqs, seen, color, k);
      FindNext(ps, from, t - 1, k);
      var r := Turn(prev.0, prev.1, key, ps[t], color, t >= from);
      assert Tables(ps, from, t, seqs, seen, color) == r;
      if Find(ps, from, t - 1, k).Some? {
        assert prev.1[k] == color;
        assert r.1[k] == color && r.0[k] == prev.0[k];
        assert FirstPrice(ps, from, t, k) == FirstPrice(ps, from, t - 1, k);
      } else if k == key && t >= from {
        assert prev.1[k] == seen[k] && prev.0[k] == seqs[k];
        assert Find(ps, from, t, k) == Some(t);
        assert FirstPrice(ps, from, t, k) == ps[t];
      } else {
        assert r.1[k] == prev.1[k] && r.0[k] == prev.0[k];
        assert Find(ps, from, t, k).None?;
      }
    }
  }

  /** One round of rehash's loop moves the secret and the price on by one
      round. */
  lemma Round(a0: nat, m: nat, i: nat, a: nat)
    requires i < m && a == Secret(a0, i)
    ensures Hash(a) == Secret(a0, i + 1) && Hash(a) % 10 == Prices(a0, m)[i + 1]
  {
    PricesAt(a0, m, i + 1);
  }

  /** The key of round t rolls the previous one with the price change. */
  lemma KeyStep(ps: seq<nat>, i: nat, key: nat, cur: nat)
    requires Digits(ps) && i + 1 < |ps|
    requires key == Key(ps, i) && cur == ps[i]
    ensures Roll(key, ps[i + 1] - cur + VOFF) == Key(ps, i + 1)
  {
  }

  /** How often a loop `for i := 0; i < n; i++` runs. */
  function Rounds(n: int): nat {
    if n < 0 then 0 else n
  }

  /** rehash: n rounds of hash. The price under the key of every counted
      round is added to seqs, unless SEEN already holds this buyer's color
      there; the color is then stored. The source counts the rounds from
      FIRST on (its test `i > 3`); `from` is that first counted round. */
  method Rehash(a0: nat, n: int, seqs: seq<int>, seen: seq<int>, from: nat)
    returns (a: nat, seqs': seq<int>, seen': seq<int>)
    requires |seqs| == MAXDIM && |seen| == MAXDIM && from >= 1
    ensures a == Secret(a0, Rounds(n))
    ensures Digits(Prices(a0, Rounds(n)))
    ensures (seqs', seen') == Tables(Prices(a0, Rounds(n)), from, Rounds(n), seqs, seen, a0)
    ensures |seqs'| == MAXDIM && |seen'| == MAXDIM
    ensures forall k :: 0 <= k < MAXDIM ==>
      var ps := Prices(a0, Rounds(n));
      seen'[k] == if Find(ps, from, |ps| - 1, k).Some? then a0 else seen[k]
    ensures forall k :: 0 <= k < MAXDIM ==>
      var ps := Prices(a0, Rounds(n));
      seqs'[k] == seqs[k] + Credit(ps, from, |ps| - 1, k, seen[k], a0)
  {
    var color := a0;
    var m: nat := Rounds(n);
    ghost var ps := Prices(a0, m);
    PricesDigits(a0, m);
    PricesAt(a0, m, 0);
    a := a0;
    seqs', seen' := seqs, seen;
    var key: nat, cur: nat := 0, a % 10;
    var i := 0;
    while i < m
      invariant 0 <= i <= m
      invariant a == Secret(a0, i) && cur == ps[i] && key == Key(ps, i)
      invariant (seqs', seen') == Tables(ps, from, i, seqs, seen, color)
    {
      Round(a0, m, i, a);
      KeyStep(ps, i, key, cur);
      a := Hash(a);
      var nxt: nat := a % 10;
      key := Roll(key, nxt - cur + VOFF);
      var tables := Turn(seqs', seen', key, nxt, color, i + 1 >= from);
      seqs', seen' := tables.0, tables.1;
      cur := nxt;
      i := i + 1;
    }
    forall k | 0 <= k < MAXDIM
      ensures seen'[k] == if Find(ps, from, m, k).Some? then a0 else seen[k]
      ensures seqs'[k] == seqs[k] + Credit(ps, from, m, k, seen[k], a0)
    {
      TablesFind(ps, from, m, seqs, seen, color, k);
    }
  }

  /* The fourth round */

  /** As written, rehash never credits round 4, although its key already
      packs four price changes (KeyWindow): a buyer whose first window
      does not come back later adds nothing under it. */
  lemma FourthSkipped(ps: seq<nat>, n: nat, seen: int, color: int)
    requires Digits(ps) && 4 <= n < |ps| && seen != color
    requires Find(ps, FIRST, n, Key(ps, 4)).None?
    ensures Credit(ps, FIRST, n, Key(ps, 4), seen, color) == 0
    ensures Credit(ps, FIRST - 1, n, Key(ps, 4), seen, color) == ps[4]
  {
  }

  /** The prices 0, 1, 2, 3, 4: the window of four rises appears once, in
      round 4, and is worth 4 counted from round 4 but 0 as written. */
  lemma FourthSkippedExample()
    ensures Digits([0, 1, 2, 3, 4])
    ensures Credit([0, 1, 2, 3, 4], FIRST, 4, Key([0, 1, 2, 3, 4], 4), 0, 1) == 0
    ensures Credit([0, 1, 2, 3, 4], FIRST - 1, 4, Key([0, 1, 2, 3, 4], 4), 0, 1) == 4
  {
    FourthSkipped([0, 1, 2, 3, 4], 4, 0, 1);
  }

  /* main */

  /** The tables after rehashing every buyer in turn for n rounds, each
      with its initial secret as color. */
  function Market(bs: seq<nat>, n: nat, from: nat, seqs: seq<int>, seen: seq<int>)
    : (r: (seq<int>, seq<int>))
    requires |seqs| == MAXDIM && |seen| == MAXDIM
    ensures |r.0| == MAXDIM && |r.1| == MAXDIM
  {
    if bs == [] then (seqs, seen)
    else
      PricesDigits(bs[0], n);
      var r := Tables(Prices(bs[0], n), from, n, seqs, seen, bs[0]);
      Market(bs[1..], n, from, r.0, r.1)
  }

  /** What all buyers together pay under key k: each the price at the
      first counted round whose key is k. */
  function Total(bs: seq<nat>, n: nat, from: nat, k: nat): nat {
    if bs == [] then 0
    else
      PricesDigits(bs[0], n);
      FirstPrice(Prices(bs[0], n), from, n, k) + Total(bs[1..], n, from, k)
  }

  predicate Distinct(bs: seq<nat>) {
    forall i, j :: 0 <= i < j < |bs| ==> bs[i] != bs[j]
  }

  /** With pairwise different colors, none of them in SEEN to begin with,
      every buyer adds under each key the price at its first counted
      meeting of that key. */
  lemma {:induction false} MarketTotal(bs: seq<nat>, n: nat, from: nat, seqs: seq<int>, seen: seq<int>,
                                       k: nat)
    requires |seqs| == MAXDIM && |seen| == MAXDIM && from >= 1 && k < MAXDIM
    requires Distinct(bs) && seen[k] !in bs
    ensures Market(bs, n, from, seqs, seen).0[k] == seqs[k] + Total(bs, n, from, k)
  {
    if bs != [] {
      var ps := Prices(bs[0], n);
      PricesDigits(bs[0], n);
      TablesFind(ps, from, n, seqs, seen, bs[0], k);
      var r := Tables(ps, from, n, seqs, seen, bs[0]);
      assert r.1[k] !in bs[1..] by {
        forall j | 1 <= j < |bs| ensures bs[j] != bs[0] {}
        assert forall j :: 0 <= j < |bs[1..]| ==> bs[1..][j] == bs[j + 1];
      }
      MarketTotal(bs[1..], n, from, r.0, r.1, k);
    }
  }

  /** part 1: the n-th secrets of the buyers, added up. */
  function SumSecrets(bs: seq<nat>, n: nat): nat {
    if bs == [] then 0 else Secret(bs[0], n) + SumSecrets(bs[1..], n)
  }

  /** slices.Max: the greatest entry. */
  method Max(s: seq<int>) returns (m: int)
    requires s != []
    ensures m in s
    ensures forall i :: 0 <= i < |s| ==> s[i] <= m
  {
    m := s[0];
    var i := 1;
    while i < |s|
      invariant 1 <= i <= |s|
      invariant m in s[..i]
      invariant forall j :: 0 <= j < i ==> s[j] <= m
    {
      if s[i] > m {
        m := s[i];
      }
      i := i + 1;
    }
  }

  /** main, after reading the secrets: part 1 is the sum of the NLOOP-th
      secrets, part 2 the largest total in seqs. With distinct non-zero
      secrets (SEEN starts all zero), part 2 is the best any key earns
      over all buyers. */
  method Solve(secrets: seq<nat>, from: nat) returns (sum1: int, count2: int)
    requires from >= 1
    ensures sum1 == SumSecrets(secrets, NLOOP)
    ensures count2 in Market(secrets, NLOOP, from, Zeros(), Zeros()).0
    ensures forall k :: 0 <= k < MAXDIM ==> count2 >= Market(secrets, NLOOP, from, Zeros(), Zeros()).0[k]
    ensures Distinct(secrets) && 0 !in secrets ==>
      (forall k :: 0 <= k < MAXDIM ==> count2 >= Total(secrets, NLOOP, from, k)) &&
      exists k :: 0 <= k < MAXDIM && count2 == Total(secrets, NLOOP, from, k)
  {
    var seqs, seen := Zeros(), Zeros();
    sum1 := 0;
    var i := 0;
    while i < |secrets|
      invariant 0 <= i <= |secrets| && |seqs| == MAXDIM && |seen| == MAXDIM
      invariant sum1 + SumSecrets(secrets[i..], NLOOP) == SumSecrets(secrets, NLOOP)
      invariant Market(secrets[i..], NLOOP, from, seqs, seen) == Market(secrets, NLOOP, from, Zeros(), Zeros())
    {
      assert secrets[i..][1..] == secrets[i + 1..];
      var a;
      a, seqs, seen := Rehash(secrets[i], NLOOP, seqs, seen, from);
      sum1 := sum1 + a;
      i := i + 1;
    }
    count2 := Max(seqs);
    assert secrets[i..] == [];
    if Distinct(secrets) && 0 !in secrets {
      forall k | 0 <= k < MAXDIM ensures seqs[k] == Total(secrets, NLOOP, from, k) {
        MarketTotal(secrets, NLOOP, from, Zeros(), Zeros(), k);
      }
    }
  }

  /** The all-zero table, as make([]int, MAXDIM) leaves it. */
  function Zeros(): (z: seq<int>)
    ensures |z| == MAXDIM && forall k :: 0 <= k < MAXDIM ==> z[k] == 0
  {
    seq(MAXDIM, _ => 0)
  }
}
