/** shuffle and key of 2022/20/aoc20.go around the single move of Mixing:
    the bins are packed from the salted input, mixed round after round and
    repacked between rounds, then read out with the position of 0; key sums
    the numbers 1000, 2000 and 3000 places after it, circularly. */
module Grove {
  import opened GoInt
  import opened Mixing

  /** One round of the reference: the items of index 0 .. k - 1 moved, in
      that order. */
  function Round(xs: seq<Item>, k: nat): (ys: seq<Item>)
    ensures |ys| == |xs| && multiset(ys) == multiset(xs)
  {
    if k == 0 then xs
    else
      var ys := Round(xs, k - 1);
      MixMultiset(ys, k - 1);
      Mix(ys, k - 1)
  }

  /** r full rounds of the reference. */
  function Rounds(xs: seq<Item>, r: nat): (ys: seq<Item>)
    ensures |ys| == |xs| && multiset(ys) == multiset(xs)
  {
    if r == 0 then xs else Round(Rounds(xs, r - 1), |xs|)
  }

  /** The numbers of a list of items. */
  function Vals(xs: seq<Item>): seq<int> {
    seq(|xs|, i requires 0 <= i < |xs| => xs[i].val)
  }

  /** The input salted and numbered, as populate reads it. */
  function Items(input: seq<int>, salt: int): (xs: seq<Item>)
    ensures |xs| == |input| && forall i :: 0 <= i < |xs| ==> xs[i] == Item(input[i] * salt, i)
  {
    seq(|input|, i requires 0 <= i < |input| => Item(input[i] * salt, i))
  }

  /** shuffle once: every index, from 0 up, makes its move in turn. A
      single item (n = 1) would divide by zero in mod and is excluded. */
  method Once(d: Deck, n: nat) returns (e: Deck)
    requires Valid(d, n) && n != 1
    ensures Valid(e, n) && Flatten(e.bins) == Round(Flatten(d.bins), n)
  {
    e := d;
    for k := 0 to n
      invariant Valid(e, n) && Flatten(e.bins) == Round(Flatten(d.bins), k)
    {
      e := Step(e, n, k);
    }
  }

  /** Each index below n stands exactly once in flat. */
  predicate Perm(flat: seq<Item>, n: nat) {
    |flat| == n &&
    (forall i :: 0 <= i < n ==> flat[i].gix < n) &&
    (forall i, j :: 0 <= i < j < n ==> flat[i].gix != flat[j].gix) &&
    (forall g :: 0 <= g < n ==> Find(flat, g) < n)
  }

  /** Exact addresses make the flat list a permutation of the indices. */
  lemma ValidPerm(d: Deck, n: nat)
    requires Valid(d, n)
    ensures Perm(Flatten(d.bins), n)
  {
    var bins := d.bins;
    var flat := Flatten(bins);
    forall i | 0 <= i < n
      ensures flat[i].gix < n
    {
      var a := Where(bins, |bins|, i);
      FlatAt(bins, |bins|, a.bin, a.off);
    }
    forall i, j | 0 <= i < j < n
      ensures flat[i].gix != flat[j].gix
    {
      var a, b := Where(bins, |bins|, i), Where(bins, |bins|, j);
      FlatAt(bins, |bins|, a.bin, a.off);
      FlatAt(bins, |bins|, b.bin, b.off);
    }
    forall g | 0 <= g < n
      ensures Find(flat, g) < n
    {
      assert Located(bins, d.addrs, g);
      var a := d.addrs[g];
      FlatAt(bins, |bins|, a.bin, a.off);
      FindBelow(flat, g, Lens(bins, 0, a.bin) + a.off);
    }
  }

  /** The numbered input is a permutation of its indices. */
  lemma ItemsPerm(input: seq<int>, salt: int)
    ensures Perm(Items(input, salt), |input|)
  {
    var xs := Items(input, salt);
    forall g | 0 <= g < |input|
      ensures Find(xs, g) < |input|
    {
      FindBelow(xs, g, g);
    }
  }

  /** The smaller of two. */
  function Min(a: nat, b: nat): nat {
    if a < b then a else b
  }

  /** bins is flat cut into bins of Width items, the last one partial and
      possibly empty. */
  predicate Packed(bins: seq<seq<Item>>, flat: seq<Item>) {
    |bins| > 0 && (|bins| - 1) * Width <= |flat| < |bins| * Width &&
    forall b :: 0 <= b < |bins| ==>
      b * Width <= |flat| && bins[b] == flat[b * Width..Min(b * Width + Width, |flat|)]
  }

  /** A packing flattens back to its list, bin by bin. */
  lemma {:induction false} PackedFlat(bins: seq<seq<Item>>, flat: seq<Item>, h: nat)
    requires Packed(bins, flat) && h <= |bins|
    ensures Flat(bins, h) == flat[..Min(h * Width, |flat|)]
    decreases h
  {
    if h > 0 {
      PackedFlat(bins, flat, h - 1);
      var lo := (h - 1) * Width;
      assert h * Width == lo + Width;
      assert flat[..Min(h * Width, |flat|)] == flat[..lo] + flat[lo..Min(lo + Width, |flat|)];
    }
  }

  /** Offset o of bin b holds flat item b * Width + o. */
  lemma PackedAt(bins: seq<seq<Item>>, flat: seq<Item>, b: nat, o: nat)
    requires Packed(bins, flat) && b < |bins| && o < |bins[b]|
    ensures o < Width && b * Width + o < |flat| && bins[b][o] == flat[b * Width + o]
  {
  }

  /** An address is determined by its flat position. */
  lemma Digits(b1: nat, o1: nat, b2: nat, o2: nat)
    requires o1 < Width && o2 < Width && b1 * Width + o1 == b2 * Width + o2
    ensures b1 == b2 && o1 == o2
  {
  }

  /** The flat position Width * bin + off of an address. */
  function Pos(a: Addr): nat {
    a.bin * Width + a.off
  }

  /** A packing whose addresses name every item's position is exact. */
  lemma PackedIndexed(bins: seq<seq<Item>>, flat: seq<Item>, addrs: seq<Addr>, n: nat)
    requires Perm(flat, n) && Packed(bins, flat) && |addrs| == n
    requires forall j :: 0 <= j < n ==> addrs[flat[j].gix].off < Width && Pos(addrs[flat[j].gix]) == j
    ensures Indexed(bins, addrs, n, -1)
  {
    forall g | 0 <= g < n
      ensures Located(bins, addrs, g)
    {
      var p := Find(flat, g);
      var a := addrs[g];
      assert Pos(a) == p;
      assert a.bin * Width <= p < |flat|;
      assert a.bin < |bins|;
      assert bins[a.bin] == flat[a.bin * Width..Min(a.bin * Width + Width, |flat|)];
    }
    forall b, o | 0 <= b < |bins| && 0 <= o < |bins[b]|
      ensures bins[b][o].gix < n && addrs[bins[b][o].gix] == Addr(b, o)
    {
      PackedAt(bins, flat, b, o);
      var j := b * Width + o;
      var a := addrs[flat[j].gix];
      Digits(a.bin, a.off, b, o);
    }
  }

  /** clusters holds the sizes of the bins before i, cluster by cluster. */
  predicate SizedUpTo(bins: seq<seq<Item>>, clusters: seq<int>, i: nat) {
    var m := |bins|;
    |clusters| == m / Group + 1 &&
    forall c :: 0 <= c < |clusters| ==>
      Lo(c, m) <= Lo(c + 1, m) && clusters[c] == Lens(bins, Min(Lo(c, m), i), Min(Lo(c + 1, m), i))
  }

  /** Adding bin i to its cluster accounts for bins up to i. */
  lemma SizesNext(bins: seq<seq<Item>>, clusters: seq<int>, i: nat)
    requires i < |bins| && SizedUpTo(bins, clusters, i)
    ensures i / Group < |clusters|
    ensures SizedUpTo(bins, clusters[i / Group := clusters[i / Group] + |bins[i]|], i + 1)
  {
    var m := |bins|;
    forall c | 0 <= c < |clusters|
      ensures Lens(bins, Min(Lo(c, m), i + 1), Min(Lo(c + 1, m), i + 1)) ==
        Lens(bins, Min(Lo(c, m), i), Min(Lo(c + 1, m), i)) + (if c == i / Group then |bins[i]| else 0)
    {
      SizesStep(m, i, c);
    }
  }

  /** The sizes of the clusters: bin i adds its length to cluster i / 16
      (populate's and rebalance's size loops). */
  method Sizes(bins: seq<seq<Item>>) returns (clusters: seq<int>)
    ensures ClustersOk(bins, clusters)
  {
    var m := |bins|;
    clusters := seq(m / Group + 1, _ => 0);
    for i := 0 to m
      invariant SizedUpTo(bins, clusters, i)
    {
      SizesNext(bins, clusters, i);
      clusters := clusters[i / Group := clusters[i / Group] + |bins[i]|];
    }
  }

  /** Where bin i stands against the bounds of cluster c. */
  lemma SizesStep(m: nat, i: nat, c: nat)
    requires i < m
    ensures c == i / Group ==> Lo(c, m) <= i < Lo(c + 1, m)
    ensures c < i / Group ==> Lo(c + 1, m) <= i
    ensures c > i / Group ==> i < Lo(c, m)
  {
  }

  /** The cutting loop before item i: full bins, the open bin, and the
      addresses of the items so far. */
  predicate ChoppedUpTo(flat: seq<Item>, n: nat, bins: seq<seq<Item>>, bin: seq<Item>, addrs: seq<Addr>, i: nat)
    requires Perm(flat, n) && i <= n
  {
    |bins| * Width <= i < |bins| * Width + Width &&
    bin == flat[|bins| * Width..i] &&
    (forall b :: 0 <= b < |bins| ==> bins[b] == flat[b * Width..b * Width + Width]) &&
    |addrs| == n &&
    forall j :: 0 <= j < i ==> addrs[flat[j].gix].off < Width && Pos(addrs[flat[j].gix]) == j
  }

  /** Item i goes to the end of the open bin with its address. */
  lemma ChopNext(flat: seq<Item>, n: nat, bins: seq<seq<Item>>, bin: seq<Item>, addrs: seq<Addr>, i: nat)
    requires Perm(flat, n) && i < n && ChoppedUpTo(flat, n, bins, bin, addrs, i)
    ensures var addrs' := addrs[flat[i].gix := Addr(|bins|, |bin|)];
      var bin' := bin + [flat[i]];
      if |bin'| >= Width then ChoppedUpTo(flat, n, bins + [bin'], [], addrs', i + 1)
      else ChoppedUpTo(flat, n, bins, bin', addrs', i + 1)
  {
    assert flat[|bins| * Width..i + 1] == bin + [flat[i]];
  }

  /** The cutting loop: each item goes to the end of the open bin, which
      is closed once it holds Width items; the last bin is closed as it
      stands. Every item's address is written down on the way. */
  method Chop(flat: seq<Item>, n: nat) returns (bins: seq<seq<Item>>, addrs: seq<Addr>)
    requires Perm(flat, n)
    ensures Packed(bins, flat) && |addrs| == n
    ensures forall j :: 0 <= j < n ==> addrs[flat[j].gix].off < Width && Pos(addrs[flat[j].gix]) == j
  {
    bins := [];
    var bin: seq<Item> := [];
    addrs := seq(n, _ => Addr(0, 0));
    for i := 0 to n
      invariant ChoppedUpTo(flat, n, bins, bin, addrs, i)
    {
      ChopNext(flat, n, bins, bin, addrs, i);
      addrs := addrs[flat[i].gix := Addr(|bins|, |bin|)];
      bin := bin + [flat[i]];
      if |bin| >= Width {
        bins := bins + [bin];
        bin := [];
      }
    }
    ChopLast(bins, bin, flat);
    bins := bins + [bin];
  }

  /** Closing the last bin completes the packing. */
  lemma ChopLast(bins: seq<seq<Item>>, bin: seq<Item>, flat: seq<Item>)
    requires |bins| * Width <= |flat| < |bins| * Width + Width && bin == flat[|bins| * Width..]
    requires forall b :: 0 <= b < |bins| ==> bins[b] == flat[b * Width..b * Width + Width]
    ensures Packed(bins + [bin], flat)
  {
    var all := bins + [bin];
    forall b | 0 <= b < |all|
      ensures b * Width <= |flat| && all[b] == flat[b * Width..Min(b * Width + Width, |flat|)]
    {
      if b < |bins| {
        assert b * Width + Width <= |bins| * Width;
      }
    }
  }

  /** Lines up the flat list into bins of Width items, records every
      item's address and sizes the clusters (populate, and rebalance's
      repacking). */
  method Pack(flat: seq<Item>, n: nat) returns (d: Deck)
    requires Perm(flat, n)
    ensures Valid(d, n) && Flatten(d.bins) == flat
    ensures |d.bins| == n / Width + 1 && forall b :: 0 <= b < |d.bins| ==> |d.bins[b]| <= Width
  {
    var bins, addrs := Chop(flat, n);
    var clusters := Sizes(bins);
    d := Deck(bins, clusters, addrs);
    PackedIndexed(bins, flat, addrs, n);
    PackedFlat(bins, flat, |bins|);
  }

  /** populate: the salted input in bins of Width, item i at index i. */
  method Populate(input: seq<int>, salt: int) returns (d: Deck)
    ensures Valid(d, |input|) && Flatten(d.bins) == Items(input, salt)
    ensures forall b :: 0 <= b < |d.bins| ==> |d.bins[b]| <= Width
  {
    ItemsPerm(input, salt);
    d := Pack(Items(input, salt), |input|);
  }

  /** rebalance between rounds: the bins are flattened and packed again;
      the list is unchanged and no bin holds more than Width items. */
  method Rebalance(d: Deck, n: nat) returns (e: Deck)
    requires Valid(d, n)
    ensures Valid(e, n) && Flatten(e.bins) == Flatten(d.bins)
    ensures forall b :: 0 <= b < |e.bins| ==> |e.bins[b]| <= Width
  {
    var flat: seq<Item> := [];
    for i := 0 to |d.bins|
      invariant flat == Flat(d.bins, i)
    {
      flat := flat + d.bins[i];
    }
    ValidPerm(d, n);
    e := Pack(flat, n);
  }

  lemma ValsAppend(a: seq<Item>, b: seq<Item>)
    ensures Vals(a + b) == Vals(a) + Vals(b)
  {
  }

  /** flatten and extract origin: the numbers in list order, and the last
      position holding 0, or -1 when none does. */
  method Output(bins: seq<seq<Item>>) returns (shuffled: seq<int>, o: int)
    ensures shuffled == Vals(Flatten(bins))
    ensures -1 <= o < |shuffled| && (o >= 0 ==> shuffled[o] == 0)
    ensures forall j :: o < j < |shuffled| ==> shuffled[j] != 0
  {
    shuffled, o := [], -1;
    for i := 0 to |bins|
      invariant shuffled == Vals(Flat(bins, i))
      invariant -1 <= o < |shuffled| && (o >= 0 ==> shuffled[o] == 0)
      invariant forall j :: o < j < |shuffled| ==> shuffled[j] != 0
    {
      for t := 0 to |bins[i]|
        invariant shuffled == Vals(Flat(bins, i)) + Vals(bins[i][..t])
        invariant -1 <= o < |shuffled| && (o >= 0 ==> shuffled[o] == 0)
        invariant forall j :: o < j < |shuffled| ==> shuffled[j] != 0
      {
        if bins[i][t].val == 0 {
          o := |shuffled|;
        }
        shuffled := shuffled + [bins[i][t].val];
        ValsAppend(bins[i][..t], [bins[i][t]]);
        assert bins[i][..t + 1] == bins[i][..t] + [bins[i][t]];
      }
      assert bins[i][..|bins[i]|] == bins[i];
      ValsAppend(Flat(bins, i), bins[i]);
    }
  }

  /** Deleting then inserting keeps the multiset. */
  lemma MoveMultiset<T>(s: seq<T>, p: nat, j: nat)
    requires p < |s| && j < |s|
    ensures multiset(Ins(Del(s, p), j, s[p])) == multiset(s)
  {
    var t := Del(s, p);
    assert s == s[..p] + [s[p]] + s[p + 1..];
    assert multiset(t) + multiset{s[p]} == multiset(s);
    assert t == t[..j] + t[j..];
    assert multiset(Ins(t, j, s[p])) == multiset(t[..j]) + multiset{s[p]} + multiset(t[j..]);
  }

  /** A move rearranges the items. */
  lemma MixMultiset(xs: seq<Item>, k: nat)
    ensures multiset(Mix(xs, k)) == multiset(xs)
  {
    var p := Find(xs, k);
    if p < |xs| && |xs| >= 2 {
      var j := Cycle(p + xs[p].val, |xs| - 1);
      assert Mix(xs, k) == Ins(Del(xs, p), j, xs[p]);
      MoveMultiset(xs, p, j);
    }
  }

  /** The rounds of shuffle: each mixes once and rebalances. */
  method Run(d: Deck, n: nat, rounds: nat) returns (e: Deck)
    requires Valid(d, n) && (n != 1 || rounds == 0)
    ensures Valid(e, n) && Flatten(e.bins) == Rounds(Flatten(d.bins), rounds)
  {
    e := d;
    for r := 0 to rounds
      invariant Valid(e, n) && Flatten(e.bins) == Rounds(Flatten(d.bins), r)
    {
      e := Once(e, n);
      e := Rebalance(e, n);
    }
  }

  /** shuffle: nround rounds (none when nround <= 0) of the salted input,
      rebalanced after each; the numbers come out as the reference rounds
      leave them, a rearrangement of the salted items, with the position
      of the last 0. */
  method Shuffle(input: seq<int>, salt: int, nround: int) returns (shuffled: seq<int>, o: int)
    requires |input| != 1 || nround <= 0
    ensures shuffled == Vals(Rounds(Items(input, salt), if nround > 0 then nround else 0))
    ensures var r := if nround > 0 then nround else 0;
      multiset(Rounds(Items(input, salt), r)) == multiset(Items(input, salt))
    ensures -1 <= o < |shuffled| && (o >= 0 ==> shuffled[o] == 0)
    ensures forall j :: o < j < |shuffled| ==> shuffled[j] != 0
  {
    var d := Populate(input, salt);
    d := Run(d, |input|, if nround > 0 then nround else 0);
    shuffled, o := Output(d.bins);
  }

  /** key: the numbers 1000, 2000 and 3000 places after position o, going
      round the list. */
  function Key(a: seq<int>, o: int): (k: int)
    requires |a| > 0
    ensures k == a[(o + 1000) % |a|] + a[(o + 2000) % |a|] + a[(o + 3000) % |a|]
  {
    ModEuclid(o + 1000, |a|);
    ModEuclid(o + 2000, |a|);
    ModEuclid(o + 3000, |a|);
    a[Mod(o + 1000, |a|)] + a[Mod(o + 2000, |a|)] + a[Mod(o + 3000, |a|)]
  }

  /** The list cut open s places later. */
  function Rot(a: seq<int>, s: nat): (r: seq<int>)
    requires s <= |a|
    ensures |r| == |a|
  {
    a[s..] + a[..s]
  }

  lemma RotAt(a: seq<int>, s: nat, i: int)
    requires s < |a| && 0 <= i < |a|
    ensures Rot(a, s)[i] == a[(i + s) % |a|]
  {
    var n := |a|;
    if i + s < n {
      assert (i + s) % n == i + s;
    } else {
      assert (i + s) % n == i + s - n;
    }
  }

  lemma ModShift(x: int, s: int, n: int)
    requires n > 0
    ensures ((x - s) % n + s) % n == x % n
  {
    var q := (x - s) / n;
    var r := (x - s) % n;
    assert r + s == (x / n - q) * n + x % n;
    ModUnique(r + s, n, x / n - q, x % n);
  }

  /** The number d places after o, in the list cut open s places later. */
  lemma RotTerm(a: seq<int>, o: int, s: nat, d: int)
    requires s < |a|
    ensures Rot(a, s)[(o - s + d) % |a|] == a[(o + d) % |a|]
  {
    var n := |a|;
    RotAt(a, s, (o - s + d) % n);
    ModShift(o + d, s, n);
    assert o - s + d == (o + d) - s;
  }

  /** The key only depends on the circle: cutting the list open elsewhere,
      with the position moved along, gives the same key. */
  lemma KeyRotate(a: seq<int>, o: int, s: nat)
    requires s < |a|
    ensures Key(Rot(a, s), o - s) == Key(a, o)
  {
    RotTerm(a, o, s, 1000);
    RotTerm(a, o, s, 2000);
    RotTerm(a, o, s, 3000);
  }
}
