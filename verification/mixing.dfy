/** Grove Positioning System (2022/20/aoc20.go). The numbers are mixed: each
    one, in its original order, leaves its place in the circular list and
    is reinserted its own value further on. shuffle keeps the list in bins
    of at most 32 items, 16 bins to a cluster, with the size of every
    cluster and the address of every item, so that an item's position is a
    short sum and a position's bin a short search. Mix is the reference on
    the flat list; Step is proved to move the bins exactly as Mix moves the
    list, and to keep the sizes and addresses exact. */
module Mixing {
  import opened GoInt

  /** nitem: the items a bin holds after packing. */
  const Width: nat := 32

  /** nbin: the bins in a cluster. */
  const Group: nat := 16

  /** A number, salted, with its index in the input (gix). */
  datatype Item = Item(val: int, gix: nat)

  /** Where an item is: its bin and its offset in the bin. */
  datatype Addr = Addr(bin: nat, off: nat)

  /** mod: Go's remainder, lifted into [0, b). */
  function Mod(a: int, b: int): (r: int)
    requires b > 0
    ensures 0 <= r < b
  {
    Rem(Rem(a, b) + b, b)
  }

  /** mod is the Euclidean remainder: a negative Go remainder is moved up
      by b, a non-negative one comes back from the second %. */
  lemma ModEuclid(a: int, b: int)
    requires b > 0
    ensures Mod(a, b) == a % b
  {
    var r := Rem(a, b);
    RemEuclidean(a, b);
    RemEuclidean(r + b, b);
    if r >= 0 {
      ModUnique(r + b, b, 1, r);
    } else {
      ModUnique(r + b, b, 0, r + b);
    }
  }

  /** The items in bins lo..hi - 1. */
  function Lens(bins: seq<seq<Item>>, lo: nat, hi: nat): nat
    requires lo <= hi <= |bins|
    decreases hi - lo
  {
    if lo == hi then 0 else Lens(bins, lo, hi - 1) + |bins[hi - 1]|
  }

  /** The first hi bins, laid end to end. */
  function Flat(bins: seq<seq<Item>>, hi: nat): (r: seq<Item>)
    requires hi <= |bins|
    ensures |r| == Lens(bins, 0, hi)
  {
    if hi == 0 then [] else Flat(bins, hi - 1) + bins[hi - 1]
  }

  /** The circular list the bins hold. */
  function Flatten(bins: seq<seq<Item>>): seq<Item> {
    Flat(bins, |bins|)
  }

  lemma {:induction false} LensSplit(bins: seq<seq<Item>>, lo: nat, mid: nat, hi: nat)
    requires lo <= mid <= hi <= |bins|
    ensures Lens(bins, lo, hi) == Lens(bins, lo, mid) + Lens(bins, mid, hi)
    decreases hi - mid
  {
    if mid < hi {
      LensSplit(bins, lo, mid, hi - 1);
    }
  }

  /** Changing one bin changes the sizes of the ranges that hold it, by the
      change of its size. */
  lemma {:induction false} LensUpdate(bins: seq<seq<Item>>, b: nat, row: seq<Item>, lo: nat, hi: nat)
    requires b < |bins| && lo <= hi <= |bins|
    ensures Lens(bins[b := row], lo, hi) ==
      Lens(bins, lo, hi) + (if lo <= b < hi then |row| - |bins[b]| else 0)
    decreases hi - lo
  {
    if lo < hi {
      LensUpdate(bins, b, row, lo, hi - 1);
    }
  }

  /** The address of flat position i. */
  function Where(bins: seq<seq<Item>>, hi: nat, i: nat): (a: Addr)
    requires hi <= |bins| && i < Lens(bins, 0, hi)
    ensures a.bin < hi && a.off < |bins[a.bin]| && Lens(bins, 0, a.bin) + a.off == i
  {
    if i >= Lens(bins, 0, hi - 1) then Addr(hi - 1, i - Lens(bins, 0, hi - 1))
    else Where(bins, hi - 1, i)
  }

  /** Flat position Lens(0, b) + o holds the item at offset o of bin b. */
  lemma {:induction false} FlatAt(bins: seq<seq<Item>>, hi: nat, b: nat, o: nat)
    requires b < hi <= |bins| && o < |bins[b]|
    ensures Lens(bins, 0, b) + o < |Flat(bins, hi)| && Flat(bins, hi)[Lens(bins, 0, b) + o] == bins[b][o]
    decreases hi
  {
    LensSplit(bins, 0, b + 1, hi);
    if b < hi - 1 {
      FlatAt(bins, hi - 1, b, o);
    }
  }

  /** Deleting and inserting at one position. */
  function Del<T>(s: seq<T>, p: nat): (r: seq<T>)
    requires p < |s|
    ensures |r| == |s| - 1
  {
    s[..p] + s[p + 1..]
  }

  function Ins<T>(s: seq<T>, p: nat, x: T): (r: seq<T>)
    requires p <= |s|
    ensures |r| == |s| + 1
  {
    s[..p] + [x] + s[p..]
  }

  /** Deleting offset o of bin b deletes flat position Lens(0, b) + o. */
  lemma {:induction false} FlatDel(bins: seq<seq<Item>>, hi: nat, b: nat, o: nat)
    requires b < hi <= |bins| && o < |bins[b]|
    ensures Lens(bins, 0, b) + o < |Flat(bins, hi)|
    ensures Flat(bins[b := Del(bins[b], o)], hi) == Del(Flat(bins, hi), Lens(bins, 0, b) + o)
    decreases hi
  {
    var p := Lens(bins, 0, b) + o;
    FlatAt(bins, hi, b, o);
    var nb := bins[b := Del(bins[b], o)];
    if b < hi - 1 {
      FlatDel(bins, hi - 1, b, o);
      FlatAt(bins, hi - 1, b, o);
      var f := Flat(bins, hi - 1);
      assert Flat(nb, hi) == Del(f, p) + bins[hi - 1];
      assert Del(f + bins[hi - 1], p) == Del(f, p) + bins[hi - 1];
    } else {
      FlatSame(bins, b, Del(bins[b], o), b);
      var f := Flat(bins, b);
      assert Flat(nb, hi) == f + Del(bins[b], o);
      assert Del(f + bins[b], p) == f + Del(bins[b], o);
    }
  }

  /** Inserting x at offset o of bin b inserts it at flat position
      Lens(0, b) + o. */
  lemma {:induction false} FlatIns(bins: seq<seq<Item>>, hi: nat, b: nat, o: nat, x: Item)
    requires b < hi <= |bins| && o <= |bins[b]|
    ensures Lens(bins, 0, b) + o <= |Flat(bins, hi)|
    ensures Flat(bins[b := Ins(bins[b], o, x)], hi) == Ins(Flat(bins, hi), Lens(bins, 0, b) + o, x)
    decreases hi
  {
    var p := Lens(bins, 0, b) + o;
    LensSplit(bins, 0, b + 1, hi);
    var nb := bins[b := Ins(bins[b], o, x)];
    if b < hi - 1 {
      FlatIns(bins, hi - 1, b, o, x);
      LensSplit(bins, 0, b + 1, hi - 1);
      InsAppend(Flat(bins, hi - 1), bins[hi - 1], p, x);
    } else {
      FlatSame(bins, b, Ins(bins[b], o, x), b);
      var f := Flat(bins, b);
      assert Flat(nb, hi) == f + Ins(bins[b], o, x);
      assert Ins(f + bins[b], p, x) == f + Ins(bins[b], o, x);
    }
  }

  lemma InsAppend(f: seq<Item>, g: seq<Item>, p: nat, x: Item)
    requires p <= |f|
    ensures Ins(f + g, p, x) == Ins(f, p, x) + g
  {
    assert (f + g)[..p] == f[..p];
    assert (f + g)[p..] == f[p..] + g;
  }

  /** Bins before b do not see a change of bin b. */
  lemma {:induction false} FlatSame(bins: seq<seq<Item>>, b: nat, row: seq<Item>, hi: nat)
    requires hi <= b < |bins|
    ensures Flat(bins[b := row], hi) == Flat(bins, hi)
    decreases hi
  {
    if hi > 0 {
      FlatSame(bins, b, row, hi - 1);
    }
  }

  /** The first bin of cluster c, capped at the end. */
  function Lo(c: nat, m: nat): nat {
    if Group * c < m then Group * c else m
  }

  /** The sizes of the clusters, one more cluster than full clusters of 16
      bins. */
  predicate ClustersOk(bins: seq<seq<Item>>, clusters: seq<int>) {
    |clusters| == |bins| / Group + 1 &&
    forall c :: 0 <= c < |clusters| ==>
      Lo(c, |bins|) <= Lo(c + 1, |bins|) && clusters[c] == Lens(bins, Lo(c, |bins|), Lo(c + 1, |bins|))
  }

  /** The sum of the first hi entries. */
  function Sum(s: seq<int>, hi: nat): int
    requires hi <= |s|
  {
    if hi == 0 then 0 else Sum(s, hi - 1) + s[hi - 1]
  }

  /** The clusters before c hold the bins before its first one. */
  lemma {:induction false} ClusterPrefix(bins: seq<seq<Item>>, clusters: seq<int>, c: nat)
    requires ClustersOk(bins, clusters) && c <= |clusters|
    ensures Lo(c, |bins|) <= |bins| && Sum(clusters, c) == Lens(bins, 0, Lo(c, |bins|))
  {
    if c > 0 {
      ClusterPrefix(bins, clusters, c - 1);
      LensSplit(bins, 0, Lo(c - 1, |bins|), Lo(c, |bins|));
    }
  }

  /** Resizing bin b resizes its cluster, b / 16, by as much. */
  lemma ClusterUpdate(bins: seq<seq<Item>>, clusters: seq<int>, b: nat, row: seq<Item>)
    requires ClustersOk(bins, clusters) && b < |bins|
    ensures b / Group < |clusters|
    ensures ClustersOk(bins[b := row], clusters[b / Group := clusters[b / Group] + |row| - |bins[b]|])
  {
    var m := |bins|;
    forall c | 0 <= c < |clusters|
      ensures Lens(bins[b := row], Lo(c, m), Lo(c + 1, m)) ==
        clusters[c] + (if c == b / Group then |row| - |bins[b]| else 0)
    {
      LensUpdate(bins, b, row, Lo(c, m), Lo(c + 1, m));
      assert Lo(c, m) <= b < Lo(c + 1, m) <==> c == b / Group;
    }
  }

  /** The global index of an address: the sizes of the clusters before its
      own, then of the bins before it in its cluster, then the offset. */
  method Position(bins: seq<seq<Item>>, clusters: seq<int>, a: Addr) returns (gix: int)
    requires ClustersOk(bins, clusters) && a.bin < |bins|
    ensures gix == Lens(bins, 0, a.bin) + a.off
  {
    var cid := a.bin / Group;
    gix := a.off;
    for c := 0 to cid
      invariant gix == a.off + Sum(clusters, c)
    {
      gix := gix + clusters[c];
    }
    ClusterPrefix(bins, clusters, cid);
    for i := cid * Group to a.bin
      invariant gix == a.off + Lens(bins, 0, i)
    {
      gix := gix + |bins[i]|;
    }
  }

  lemma {:induction false} LensMono(bins: seq<seq<Item>>, lo: nat, mid: nat, hi: nat)
    requires lo <= mid <= hi <= |bins|
    ensures Lens(bins, lo, mid) <= Lens(bins, lo, hi)
  {
    LensSplit(bins, lo, mid, hi);
  }

  /** The address of global index gix: whole clusters are skipped while
      they end at or before gix, then whole bins. The bin found holds gix,
      so the offset is inside it. */
  method Locate(bins: seq<seq<Item>>, clusters: seq<int>, gix: int) returns (bin: nat, off: nat)
    requires ClustersOk(bins, clusters) && 0 <= gix < Lens(bins, 0, |bins|)
    ensures bin < |bins| && off < |bins[bin]| && Lens(bins, 0, bin) + off == gix
  {
    bin, off := 0, 0;
    while off + clusters[bin / Group] <= gix
      invariant bin < |bins| && bin % Group == 0 && bin / Group < |clusters|
      invariant off == Lens(bins, 0, bin) <= gix
      decreases |bins| - bin
    {
      var c := bin / Group;
      assert Lo(c, |bins|) == bin;
      LensSplit(bins, 0, bin, Lo(c + 1, |bins|));
      if Lo(c + 1, |bins|) == |bins| {
        assert false;
      }
      off := off + clusters[c];
      bin := bin + Group;
    }
    while off + |bins[bin]| <= gix
      invariant bin < |bins| && off == Lens(bins, 0, bin) <= gix
      decreases |bins| - bin
    {
      if bin + 1 == |bins| {
        assert false;
      }
      off := off + |bins[bin]|;
      bin := bin + 1;
    }
    off := gix - off;
  }

  /** The left shift's bookkeeping: the items at offsets lo..hi - 1 of a
      bin get those offsets, lowest first. */
  function Renumber(addrs: seq<Addr>, row: seq<Item>, lo: nat, hi: nat): (r: seq<Addr>)
    requires lo <= hi <= |row| && forall i :: lo <= i < hi ==> row[i].gix < |addrs|
    ensures |r| == |addrs|
    decreases hi - lo
  {
    if lo == hi then addrs
    else Renumber(addrs[row[lo].gix := addrs[row[lo].gix].(off := lo)], row, lo + 1, hi)
  }

  /** The right shift's bookkeeping: the same, highest first. */
  function RenumberDown(addrs: seq<Addr>, row: seq<Item>, lo: nat, hi: nat): (r: seq<Addr>)
    requires lo <= hi <= |row| && forall i :: lo <= i < hi ==> row[i].gix < |addrs|
    ensures |r| == |addrs|
    decreases hi - lo
  {
    if lo == hi then addrs
    else RenumberDown(addrs[row[hi - 1].gix := addrs[row[hi - 1].gix].(off := hi - 1)], row, lo, hi - 1)
  }

  /** No two items at offsets lo..hi - 1 share an index. */
  predicate Unique(row: seq<Item>, lo: nat, hi: nat)
    requires lo <= hi <= |row|
  {
    forall i, j :: lo <= i < j < hi ==> row[i].gix != row[j].gix
  }

  /** With unique indices, renumbering moves exactly the items of the range
      to their offsets, whichever way it runs. */
  lemma {:induction false} RenumberGet(addrs: seq<Addr>, row: seq<Item>, lo: nat, hi: nat, g: nat)
    requires lo <= hi <= |row| && (forall i :: lo <= i < hi ==> row[i].gix < |addrs|)
    requires Unique(row, lo, hi) && g < |addrs|
    ensures forall i :: lo <= i < hi && row[i].gix == g ==>
      Renumber(addrs, row, lo, hi)[g] == addrs[g].(off := i) && RenumberDown(addrs, row, lo, hi)[g] == addrs[g].(off := i)
    ensures (forall i :: lo <= i < hi ==> row[i].gix != g) ==>
      Renumber(addrs, row, lo, hi)[g] == addrs[g] && RenumberDown(addrs, row, lo, hi)[g] == addrs[g]
    decreases hi - lo
  {
    if lo < hi {
      var up := addrs[row[lo].gix := addrs[row[lo].gix].(off := lo)];
      var down := addrs[row[hi - 1].gix := addrs[row[hi - 1].gix].(off := hi - 1)];
      RenumberGet(up, row, lo + 1, hi, g);
      RenumberGet(down, row, lo, hi - 1, g);
    }
  }

  /** Every index below n but skip has an address that holds it, and every
      item's index is below n, is not skip, and has that item's address. */
  ghost predicate Indexed(bins: seq<seq<Item>>, addrs: seq<Addr>, n: nat, skip: int) {
    |addrs| == n &&
    (forall g :: 0 <= g < n && g != skip ==> Located(bins, addrs, g)) &&
    (forall b, o :: 0 <= b < |bins| && 0 <= o < |bins[b]| ==>
      bins[b][o].gix < n && bins[b][o].gix != skip && addrs[bins[b][o].gix] == Addr(b, o))
  }

  /** addrs[g] is an address of bins whose item has index g. */
  predicate Located(bins: seq<seq<Item>>, addrs: seq<Addr>, g: nat)
    requires g < |addrs|
  {
    var a := addrs[g];
    a.bin < |bins| && a.off < |bins[a.bin]| && bins[a.bin][a.off].gix == g
  }

  /** Each bin holds distinct indices: equal indices share one address. */
  lemma RowUnique(bins: seq<seq<Item>>, addrs: seq<Addr>, n: nat, skip: int, b: nat)
    requires Indexed(bins, addrs, n, skip) && b < |bins|
    ensures Unique(bins[b], 0, |bins[b]|)
  {
    forall i, j | 0 <= i < j < |bins[b]|
      ensures bins[b][i].gix != bins[b][j].gix
    {
      assert addrs[bins[b][i].gix] == Addr(b, i);
      assert addrs[bins[b][j].gix] == Addr(b, j);
    }
  }

  /** The row of bin b after its item at offset o leaves, and the
      addresses after the left shift. */
  function Removed(bins: seq<seq<Item>>, addrs: seq<Addr>, n: nat, b: nat, o: nat): (r: (seq<seq<Item>>, seq<Addr>))
    requires Indexed(bins, addrs, n, -1) && b < |bins| && o < |bins[b]|
    ensures |r.0| == |bins| && |r.1| == |addrs|
  {
    var row := Del(bins[b], o);
    assert forall i :: o <= i < |row| ==> row[i] == bins[b][i + 1];
    (bins[b := row], Renumber(addrs, row, o, |row|))
  }

  /** After the removal every index but k is located again, and no item
      left has index k. */
  lemma RemoveIndexed(bins: seq<seq<Item>>, addrs: seq<Addr>, n: nat, k: nat)
    requires Indexed(bins, addrs, n, -1) && k < n
    ensures Located(bins, addrs, k)
    ensures var a := addrs[k]; var (nbins, naddrs) := Removed(bins, addrs, n, a.bin, a.off);
      Indexed(nbins, naddrs, n, k)
  {
    assert Located(bins, addrs, k);
    var a := addrs[k];
    var (nbins, naddrs) := Removed(bins, addrs, n, a.bin, a.off);
    forall g | 0 <= g < n && g != k
      ensures Located(nbins, naddrs, g)
    {
      RemoveOne(bins, addrs, n, k, g);
    }
    forall b2, o2 | 0 <= b2 < |nbins| && 0 <= o2 < |nbins[b2]|
      ensures nbins[b2][o2].gix < n && nbins[b2][o2].gix != k && naddrs[nbins[b2][o2].gix] == Addr(b2, o2)
    {
      RemoveBack(bins, addrs, n, k, b2, o2);
    }
  }

  /** An item left after the removal is not k and has its own address. */
  lemma RemoveBack(bins: seq<seq<Item>>, addrs: seq<Addr>, n: nat, k: nat, b2: nat, o2: nat)
    requires Indexed(bins, addrs, n, -1) && k < n && Located(bins, addrs, k)
    ensures var a := addrs[k]; var (nbins, naddrs) := Removed(bins, addrs, n, a.bin, a.off);
      b2 < |nbins| && o2 < |nbins[b2]| ==>
        nbins[b2][o2].gix < n && nbins[b2][o2].gix != k && naddrs[nbins[b2][o2].gix] == Addr(b2, o2)
  {
    var a := addrs[k];
    var b, o := a.bin, a.off;
    var row := Del(bins[b], o);
    var (nbins, naddrs) := Removed(bins, addrs, n, b, o);
    if b2 < |nbins| && o2 < |nbins[b2]| {
      assert forall i :: o <= i < |row| ==> row[i] == bins[b][i + 1];
      RowUnique(bins, addrs, n, -1, b);
      assert Unique(row, o, |row|);
      var g := nbins[b2][o2].gix;
      RenumberGet(addrs, row, o, |row|, g);
      if b2 == b && o2 >= o {
        assert nbins[b2][o2] == bins[b][o2 + 1];
        assert addrs[g] == Addr(b, o2 + 1);
      } else {
        assert nbins[b2][o2] == bins[b2][o2];
        assert addrs[g] == Addr(b2, o2);
        assert forall i :: o <= i < |row| ==> row[i].gix != g by {
          forall i | o <= i < |row| ensures row[i].gix != g {
            assert addrs[bins[b][i + 1].gix] == Addr(b, i + 1);
          }
        }
      }
    }
  }

  /** One index g other than k, located before the removal, is located
      after it. */
  lemma RemoveOne(bins: seq<seq<Item>>, addrs: seq<Addr>, n: nat, k: nat, g: nat)
    requires Indexed(bins, addrs, n, -1) && k < n && g < n && g != k && Located(bins, addrs, k)
    ensures var a := addrs[k]; var (nbins, naddrs) := Removed(bins, addrs, n, a.bin, a.off);
      Located(nbins, naddrs, g)
  {
    var a := addrs[k];
    var b, o := a.bin, a.off;
    var row := Del(bins[b], o);
    var (nbins, naddrs) := Removed(bins, addrs, n, b, o);
    assert forall i :: o <= i < |row| ==> row[i] == bins[b][i + 1];
    RowUnique(bins, addrs, n, -1, b);
    assert Unique(row, o, |row|);
    RenumberGet(addrs, row, o, |row|, g);
    assert Located(bins, addrs, g);
    var a2 := addrs[g];
    if a2.bin == b && a2.off > o {
      assert row[a2.off - 1].gix == g;
    } else {
      assert a2 != a;
      assert forall i :: o <= i < |row| ==> row[i].gix != g by {
        forall i | o <= i < |row| ensures row[i].gix != g {
          assert addrs[bins[b][i + 1].gix] == Addr(b, i + 1);
        }
      }
      assert nbins[a2.bin][a2.off] == bins[a2.bin][a2.off];
    }
  }

  /** Bin b after x is inserted at offset o, and the addresses after the
      right shift, with x's own address last. */
  function Inserted(bins: seq<seq<Item>>, addrs: seq<Addr>, n: nat, x: Item, b: nat, o: nat): (r: (seq<seq<Item>>, seq<Addr>))
    requires Indexed(bins, addrs, n, x.gix) && x.gix < n && b < |bins| && o <= |bins[b]|
    ensures |r.0| == |bins| && |r.1| == |addrs|
  {
    var row := Ins(bins[b], o, x);
    assert forall i :: o < i < |row| ==> row[i] == bins[b][i - 1];
    (bins[b := row], RenumberDown(addrs, row, o + 1, |row|)[x.gix := Addr(b, o)])
  }

  /** After the insertion every index is located, k at the new place. */
  lemma InsertIndexed(bins: seq<seq<Item>>, addrs: seq<Addr>, n: nat, x: Item, b: nat, o: nat)
    requires Indexed(bins, addrs, n, x.gix) && x.gix < n && b < |bins| && o <= |bins[b]|
    ensures var (nbins, naddrs) := Inserted(bins, addrs, n, x, b, o);
      Indexed(nbins, naddrs, n, -1)
  {
    var (nbins, naddrs) := Inserted(bins, addrs, n, x, b, o);
    forall g | 0 <= g < n
      ensures Located(nbins, naddrs, g)
    {
      InsertOne(bins, addrs, n, x, b, o, g);
    }
    forall b2, o2 | 0 <= b2 < |nbins| && 0 <= o2 < |nbins[b2]|
      ensures nbins[b2][o2].gix < n && naddrs[nbins[b2][o2].gix] == Addr(b2, o2)
    {
      InsertBack(bins, addrs, n, x, b, o, b2, o2);
    }
  }

  /** The items of the row behind x are unique and are not x. */
  lemma InsertRow(bins: seq<seq<Item>>, addrs: seq<Addr>, n: nat, x: Item, b: nat, o: nat)
    requires Indexed(bins, addrs, n, x.gix) && x.gix < n && b < |bins| && o <= |bins[b]|
    ensures var row := Ins(bins[b], o, x);
      (forall i :: o < i < |row| ==> row[i] == bins[b][i - 1] && row[i].gix != x.gix) &&
      Unique(row, o + 1, |row|)
  {
    var row := Ins(bins[b], o, x);
    assert forall i :: o < i < |row| ==> row[i] == bins[b][i - 1];
    RowUnique(bins, addrs, n, x.gix, b);
  }

  lemma InsertOne(bins: seq<seq<Item>>, addrs: seq<Addr>, n: nat, x: Item, b: nat, o: nat, g: nat)
    requires Indexed(bins, addrs, n, x.gix) && x.gix < n && b < |bins| && o <= |bins[b]| && g < n
    ensures var (nbins, naddrs) := Inserted(bins, addrs, n, x, b, o);
      Located(nbins, naddrs, g)
  {
    var row := Ins(bins[b], o, x);
    var (nbins, naddrs) := Inserted(bins, addrs, n, x, b, o);
    InsertRow(bins, addrs, n, x, b, o);
    if g != x.gix {
      RenumberGet(addrs, row, o + 1, |row|, g);
      assert Located(bins, addrs, g);
      var a2 := addrs[g];
      if a2.bin == b && a2.off >= o {
        assert row[a2.off + 1].gix == g;
      } else {
        assert forall i :: o < i < |row| ==> row[i].gix != g by {
          forall i | o < i < |row| ensures row[i].gix != g {
            assert addrs[bins[b][i - 1].gix] == Addr(b, i - 1);
          }
        }
        assert nbins[a2.bin][a2.off] == bins[a2.bin][a2.off];
      }
    }
  }

  lemma InsertBack(bins: seq<seq<Item>>, addrs: seq<Addr>, n: nat, x: Item, b: nat, o: nat, b2: nat, o2: nat)
    requires Indexed(bins, addrs, n, x.gix) && x.gix < n && b < |bins| && o <= |bins[b]|
    ensures var (nbins, naddrs) := Inserted(bins, addrs, n, x, b, o);
      b2 < |nbins| && o2 < |nbins[b2]| ==>
        nbins[b2][o2].gix < n && naddrs[nbins[b2][o2].gix] == Addr(b2, o2)
  {
    var (nbins, naddrs) := Inserted(bins, addrs, n, x, b, o);
    if b2 < |nbins| && o2 < |nbins[b2]| {
      if b2 == b && o2 == o {
        assert nbins[b2][o2] == x;
      } else if b2 == b && o2 > o {
        InsertShifted(bins, addrs, n, x, b, o, o2);
      } else {
        InsertStill(bins, addrs, n, x, b, o, b2, o2);
      }
    }
  }

  /** An item behind x moved one place right and its address with it. */
  lemma InsertShifted(bins: seq<seq<Item>>, addrs: seq<Addr>, n: nat, x: Item, b: nat, o: nat, o2: nat)
    requires Indexed(bins, addrs, n, x.gix) && x.gix < n && b < |bins| && o < o2 <= |bins[b]|
    ensures var (nbins, naddrs) := Inserted(bins, addrs, n, x, b, o);
      nbins[b][o2].gix < n && naddrs[nbins[b][o2].gix] == Addr(b, o2)
  {
    var row := Ins(bins[b], o, x);
    var (nbins, naddrs) := Inserted(bins, addrs, n, x, b, o);
    InsertRow(bins, addrs, n, x, b, o);
    assert nbins[b] == row && row[o2] == bins[b][o2 - 1];
    var g := row[o2].gix;
    assert g != x.gix;
    assert addrs[g] == Addr(b, o2 - 1);
    RenumberGet(addrs, row, o + 1, |row|, g);
    assert RenumberDown(addrs, row, o + 1, |row|)[g] == Addr(b, o2);
  }

  /** An item in front of x, or in another bin, stays where it was. */
  lemma InsertStill(bins: seq<seq<Item>>, addrs: seq<Addr>, n: nat, x: Item, b: nat, o: nat, b2: nat, o2: nat)
    requires Indexed(bins, addrs, n, x.gix) && x.gix < n && b < |bins| && o <= |bins[b]|
    requires b2 < |bins| && o2 < |bins[b2]| && (b2 == b ==> o2 < o)
    ensures var (nbins, naddrs) := Inserted(bins, addrs, n, x, b, o);
      nbins[b2][o2].gix < n && naddrs[nbins[b2][o2].gix] == Addr(b2, o2)
  {
    var row := Ins(bins[b], o, x);
    var (nbins, naddrs) := Inserted(bins, addrs, n, x, b, o);
    InsertRow(bins, addrs, n, x, b, o);
    var g := nbins[b2][o2].gix;
    assert nbins[b2][o2] == bins[b2][o2];
    assert addrs[g] == Addr(b2, o2);
    RenumberGet(addrs, row, o + 1, |row|, g);
    assert forall i :: o < i < |row| ==> row[i].gix != g by {
      forall i | o < i < |row| ensures row[i].gix != g {
        assert addrs[bins[b][i - 1].gix] == Addr(b, i - 1);
      }
    }
  }

  /** p brought into [0, m) by whole turns of m: a position on a circle
      of m places. */
  function Cycle(p: int, m: nat): (r: nat)
    requires m > 0
    ensures r < m
    decreases if p < 0 then m - p else p
  {
    if p < 0 then Cycle(p + m, m)
    else if p >= m then Cycle(p - m, m)
    else p
  }

  /** Whole turns are the Euclidean remainder. */
  lemma {:induction false} CycleIs(p: int, m: nat)
    requires m > 0
    ensures Cycle(p, m) == p % m
    decreases if p < 0 then m - p else p
  {
    if p < 0 {
      CycleIs(p + m, m);
      Turn(p, m);
    } else if p >= m {
      CycleIs(p - m, m);
      Turn(p - m, m);
    } else {
      ModUnique(p, m, 0, p);
    }
  }

  /** A whole turn keeps the remainder. */
  lemma Turn(p: int, m: nat)
    requires m > 0
    ensures (p + m) % m == p % m
  {
    ModUnique(p + m, m, p / m + 1, p % m);
  }

  /** The reference move: the item at position i of the circular list xs
      leaves, and is inserted into the rest at i plus its value, counted
      round the circle of the rest. */
  function MixAt(xs: seq<Item>, i: nat): (ys: seq<Item>)
    requires i < |xs| && |xs| >= 2
    ensures |ys| == |xs|
  {
    Ins(Del(xs, i), Cycle(i + xs[i].val, |xs| - 1), xs[i])
  }

  /** The first position of index k, |xs| when there is none. */
  function Find(xs: seq<Item>, k: nat): (i: nat)
    ensures i <= |xs| && (i < |xs| ==> xs[i].gix == k)
  {
    if xs == [] then 0
    else if xs[0].gix == k then 0
    else 1 + Find(xs[1..], k)
  }

  /** No position before Find's holds index k. */
  lemma {:induction false} FindFirst(xs: seq<Item>, k: nat, j: nat)
    requires j < Find(xs, k)
    ensures xs[j].gix != k
    decreases |xs|
  {
    if j > 0 {
      FindFirst(xs[1..], k, j - 1);
      assert xs[j] == xs[1..][j - 1];
    }
  }

  /** A position holding k bounds Find's. */
  lemma FindBelow(xs: seq<Item>, k: nat, p: nat)
    requires p < |xs| && xs[p].gix == k
    ensures Find(xs, k) <= p
  {
    if Find(xs, k) > p {
      FindFirst(xs, k, p);
    }
  }

  /** The reference mixing of the number with input index k. */
  function Mix(xs: seq<Item>, k: nat): (ys: seq<Item>)
    ensures |ys| == |xs|
  {
    var i := Find(xs, k);
    if i == |xs| || |xs| < 2 then xs else MixAt(xs, i)
  }

  /** The state of shuffle: the bins, the cluster sizes, the addresses. */
  datatype Deck = Deck(bins: seq<seq<Item>>, clusters: seq<int>, addrs: seq<Addr>)

  /** The sizes are exact, every index 0..n - 1 has the address of its one
      item, and the bins hold n items. */
  ghost predicate Valid(d: Deck, n: nat) {
    ClustersOk(d.bins, d.clusters) && Indexed(d.bins, d.addrs, n, -1) && Lens(d.bins, 0, |d.bins|) == n
  }

  /** The address of k names its first position in the flat list: no item
      before it has index k. */
  lemma FindAt(d: Deck, n: nat, k: nat)
    requires Valid(d, n) && k < n
    ensures Located(d.bins, d.addrs, k)
    ensures Find(Flatten(d.bins), k) == Lens(d.bins, 0, d.addrs[k].bin) + d.addrs[k].off
  {
    var bins := d.bins;
    assert Located(bins, d.addrs, k);
    var a := d.addrs[k];
    var xs := Flatten(bins);
    var p := Lens(bins, 0, a.bin) + a.off;
    FlatAt(bins, |bins|, a.bin, a.off);
    FindBelow(xs, k, p);
    var f := Find(xs, k);
    if f < p {
      var w := Where(bins, |bins|, f);
      FlatAt(bins, |bins|, w.bin, w.off);
    }
  }

  /** The first half of a move: the item of index k leaves its bin (the
      left shift) and its cluster shrinks by one. */
  function Lift(d: Deck, n: nat, k: nat): (d1: Deck)
    requires Valid(d, n) && k < n
  {
    RemoveIndexed(d.bins, d.addrs, n, k);
    var a := d.addrs[k];
    var (bins1, addrs1) := Removed(d.bins, d.addrs, n, a.bin, a.off);
    var c := a.bin / Group;
    ClusterUpdate(d.bins, d.clusters, a.bin, bins1[a.bin]);
    Deck(bins1, d.clusters[c := d.clusters[c] - 1], addrs1)
  }

  /** After the first half the sizes are exact and every index but k is
      located. */
  lemma LiftSizes(d: Deck, n: nat, k: nat)
    requires Valid(d, n) && k < n
    ensures Located(d.bins, d.addrs, k)
    ensures var d1 := Lift(d, n, k); var a := d.addrs[k];
      ClustersOk(d1.bins, d1.clusters) && Indexed(d1.bins, d1.addrs, n, k) &&
      |d1.bins| == |d.bins| && Lens(d1.bins, 0, |d1.bins|) == n - 1 &&
      Lens(d1.bins, 0, a.bin) == Lens(d.bins, 0, a.bin)
  {
    RemoveIndexed(d.bins, d.addrs, n, k);
    var a := d.addrs[k];
    var row := Lift(d, n, k).bins[a.bin];
    ClusterUpdate(d.bins, d.clusters, a.bin, row);
    LensUpdate(d.bins, a.bin, row, 0, a.bin);
    LensUpdate(d.bins, a.bin, row, 0, |d.bins|);
  }

  /** After the first half the bins hold the reference list without k's
      item, which stood at the first position of k. */
  lemma LiftFlat(d: Deck, n: nat, k: nat)
    requires Valid(d, n) && k < n
    ensures Located(d.bins, d.addrs, k)
    ensures var d1 := Lift(d, n, k); var a := d.addrs[k]; var xs := Flatten(d.bins);
      var p := Lens(d.bins, 0, a.bin) + a.off;
      p == Find(xs, k) < |xs| && xs[p] == d.bins[a.bin][a.off] && Flatten(d1.bins) == Del(xs, p)
  {
    FindAt(d, n, k);
    var a := d.addrs[k];
    FlatAt(d.bins, |d.bins|, a.bin, a.off);
    FlatDel(d.bins, |d.bins|, a.bin, a.off);
  }

  /** Both halves of what the first half keeps. */
  lemma LiftValid(d: Deck, n: nat, k: nat)
    requires Valid(d, n) && k < n
    ensures Located(d.bins, d.addrs, k)
    ensures var d1 := Lift(d, n, k); var a := d.addrs[k]; var xs := Flatten(d.bins);
      var p := Lens(d.bins, 0, a.bin) + a.off;
      ClustersOk(d1.bins, d1.clusters) && Indexed(d1.bins, d1.addrs, n, k) &&
      |d1.bins| == |d.bins| && Lens(d1.bins, 0, |d1.bins|) == n - 1 &&
      Lens(d1.bins, 0, a.bin) == Lens(d.bins, 0, a.bin) &&
      p == Find(xs, k) < |xs| && xs[p] == d.bins[a.bin][a.off] && Flatten(d1.bins) == Del(xs, p)
  {
    LiftSizes(d, n, k);
    LiftFlat(d, n, k);
  }

  /** The second half: x enters bin b at offset o (the right shift) and
      that bin's cluster grows by one. */
  function Drop(d1: Deck, n: nat, x: Item, b: nat, o: nat): (e: Deck)
    requires ClustersOk(d1.bins, d1.clusters) && Indexed(d1.bins, d1.addrs, n, x.gix) && x.gix < n
    requires b < |d1.bins| && o <= |d1.bins[b]|
  {
    var (bins2, addrs2) := Inserted(d1.bins, d1.addrs, n, x, b, o);
    var c := b / Group;
    ClusterUpdate(d1.bins, d1.clusters, b, bins2[b]);
    Deck(bins2, d1.clusters[c := d1.clusters[c] + 1], addrs2)
  }

  /** After the second half the sizes are exact and every index is
      located. */
  lemma DropSizes(d1: Deck, n: nat, x: Item, b: nat, o: nat)
    requires ClustersOk(d1.bins, d1.clusters) && Indexed(d1.bins, d1.addrs, n, x.gix) && x.gix < n
    requires b < |d1.bins| && o <= |d1.bins[b]| && Lens(d1.bins, 0, |d1.bins|) == n - 1
    ensures Valid(Drop(d1, n, x, b, o), n)
  {
    var (bins2, addrs2) := Inserted(d1.bins, d1.addrs, n, x, b, o);
    InsertIndexed(d1.bins, d1.addrs, n, x, b, o);
    ClusterUpdate(d1.bins, d1.clusters, b, bins2[b]);
    LensUpdate(d1.bins, b, bins2[b], 0, |d1.bins|);
  }

  /** After the second half x stands at flat position Lens(0, b) + o. */
  lemma DropFlat(d1: Deck, n: nat, x: Item, b: nat, o: nat)
    requires ClustersOk(d1.bins, d1.clusters) && Indexed(d1.bins, d1.addrs, n, x.gix) && x.gix < n
    requires b < |d1.bins| && o <= |d1.bins[b]| && Lens(d1.bins, 0, |d1.bins|) == n - 1
    ensures Lens(d1.bins, 0, b) + o <= n - 1
    ensures Flatten(Drop(d1, n, x, b, o).bins) == Ins(Flatten(d1.bins), Lens(d1.bins, 0, b) + o, x)
  {
    FlatIns(d1.bins, |d1.bins|, b, o, x);
  }

  /** The reference move of k, spelled out at k's position p: x = xs[p]
      leaves and enters again at j. */
  lemma MixIs(xs: seq<Item>, k: nat, p: nat, x: Item, ys: seq<Item>, j: int, zs: seq<Item>)
    requires p == Find(xs, k) < |xs| && |xs| >= 2 && x == xs[p] && ys == Del(xs, p)
    requires j == Mod(p + x.val, |xs| - 1) && zs == Ins(ys, j, x)
    ensures Mix(xs, k) == zs
  {
    ModCycle(p + x.val, |xs| - 1);
  }

  /** Go's mod and whole turns agree. */
  lemma ModCycle(a: int, m: nat)
    requires m > 0
    ensures Mod(a, m) == Cycle(a, m)
  {
    ModEuclid(a, m);
    CycleIs(a, m);
  }

  /** The second half of a move: the global index target, modulo the n - 1
      items left, is located and x enters there. */
  method Reinsert(d1: Deck, n: nat, x: Item, target: int) returns (e: Deck)
    requires ClustersOk(d1.bins, d1.clusters) && Indexed(d1.bins, d1.addrs, n, x.gix) && x.gix < n
    requires n >= 2 && Lens(d1.bins, 0, |d1.bins|) == n - 1
    ensures Valid(e, n) && Flatten(e.bins) == Ins(Flatten(d1.bins), Mod(target, n - 1), x)
  {
    var gix := Mod(target, n - 1);
    var bin, off := Locate(d1.bins, d1.clusters, gix);
    e := Drop(d1, n, x, bin, off);
    DropSizes(d1, n, x, bin, off);
    DropFlat(d1, n, x, bin, off);
  }

  /** One move of shuffle: the item of index k leaves (Lift), its global
      index is found from the sizes, and it is reinserted its value further
      on (Reinsert). The bins then hold the reference move's list, and the
      sizes and addresses are exact again. */
  method Step(d: Deck, n: nat, k: nat) returns (e: Deck)
    requires Valid(d, n) && k < n && n >= 2
    ensures Valid(e, n) && Flatten(e.bins) == Mix(Flatten(d.bins), k)
  {
    LiftValid(d, n, k);
    var a := d.addrs[k];
    var x := d.bins[a.bin][a.off];
    var d1 := Lift(d, n, k);
    var gix := Position(d1.bins, d1.clusters, a);
    e := Reinsert(d1, n, x, gix + x.val);
    MixIs(Flatten(d.bins), k, gix, x, Flatten(d1.bins), Mod(gix + x.val, n - 1), Flatten(e.bins));
  }
}
