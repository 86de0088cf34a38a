/** Disk Fragmenter (2024/9/aoc9.go): files are lists of blocks on a disk,
    and the free space is a list of blocks kept in address order. Holds is
    the reference: whether a disk position lies in one of a list's
    blocks. */
module DiskMap {
  import opened Wrappers

  /** A run of size cells from start. */
  datatype Block = Block(start: int, size: int)

  type File = seq<Block>

  function End(b: Block): int {
    b.start + b.size
  }

  /** Position p lies in block b. */
  predicate Covers(b: Block, p: int) {
    b.start <= p < End(b)
  }

  /** Position p lies in one of the blocks: the disk cells the list holds. */
  ghost predicate Holds(bs: seq<Block>, p: int) {
    exists k :: 0 <= k < |bs| && Covers(bs[k], p)
  }

  /** No cell of b is held by the list. */
  ghost predicate Apart(b: Block, bs: seq<Block>) {
    forall p :: Covers(b, p) ==> !Holds(bs, p)
  }

  /** Non-empty blocks in increasing address order, each ending before the
      next starts. */
  predicate Ordered(bs: seq<Block>) {
    (forall i :: 0 <= i < |bs| ==> bs[i].size > 0) &&
    (forall i :: 0 < i < |bs| ==> End(bs[i - 1]) <= bs[i].start)
  }

  /** File.Size: the cells of a file, block by block. */
  function Size(f: File): int {
    if f == [] then 0 else Size(f[..|f| - 1]) + f[|f| - 1].size
  }

  method FileSize(f: File) returns (size: int)
    ensures size == Size(f)
  {
    size := 0;
    for i := 0 to |f|
      invariant size == Size(f[..i])
    {
      assert f[..i + 1][..i] == f[..i];
      size := size + f[i].size;
    }
    assert f[..|f|] == f;
  }

  lemma SizeAppend(f: File, g: File)
    ensures Size(f + g) == Size(f) + Size(g)
  {
    if g != [] {
      assert (f + g)[..|f + g| - 1] == f + g[..|g| - 1];
      SizeAppend(f, g[..|g| - 1]);
    } else {
      assert f + g == f;
    }
  }

  /** Where the binary search of Free lands: the first block starting at or
      after key. */
  function Insertion(fl: seq<Block>, key: int, k: nat): (i: nat)
    requires k <= |fl|
    ensures k <= i <= |fl|
    ensures forall j :: k <= j < i ==> fl[j].start < key
    ensures i < |fl| ==> fl[i].start >= key
    decreases |fl| - k
  {
    if k == |fl| || fl[k].start >= key then k else Insertion(fl, key, k + 1)
  }

  /** Free: return b to the free list, merging it into the block before when
      that one ends where b starts, inserting it in address order otherwise. */
  function Free(fl: seq<Block>, b: Block): seq<Block> {
    var i := Insertion(fl, b.start, 0);
    if i > 0 && End(fl[i - 1]) == b.start then fl[i - 1 := Block(fl[i - 1].start, fl[i - 1].size + b.size)]
    else fl[..i] + [b] + fl[i..]
  }

  /** A block that shares no cell with an ordered list fits in the gap the
      search finds. */
  lemma Gap(fl: seq<Block>, b: Block)
    requires Ordered(fl) && b.size > 0 && Apart(b, fl)
    ensures var i := Insertion(fl, b.start, 0);
      (i > 0 ==> End(fl[i - 1]) <= b.start) && (i < |fl| ==> End(b) <= fl[i].start)
  {
    var i := Insertion(fl, b.start, 0);
    assert Covers(b, b.start);
    if i > 0 {
      assert End(fl[i - 1]) > b.start ==> Covers(fl[i - 1], b.start);
    }
    if i < |fl| {
      assert Covers(fl[i], fl[i].start);
      assert fl[i].start < End(b) ==> Covers(b, fl[i].start);
    }
  }

  /** Free keeps the list ordered and adds exactly b's cells; it merges with
      the preceding block exactly when that one ends where b starts. */
  lemma FreeCells(fl: seq<Block>, b: Block)
    requires Ordered(fl) && b.size > 0 && Apart(b, fl)
    ensures Ordered(Free(fl, b))
    ensures forall p :: Holds(Free(fl, b), p) <==> Holds(fl, p) || Covers(b, p)
    ensures var i := Insertion(fl, b.start, 0);
      |Free(fl, b)| == if i > 0 && End(fl[i - 1]) == b.start then |fl| else |fl| + 1
  {
    var i := Insertion(fl, b.start, 0);
    Gap(fl, b);
    if i > 0 && End(fl[i - 1]) == b.start {
      MergeCells(fl, b, i - 1);
    } else {
      InsertCells(fl, b, i);
    }
  }

  lemma MergeCells(fl: seq<Block>, b: Block, k: nat)
    requires Ordered(fl) && b.size > 0 && k < |fl| && End(fl[k]) == b.start
    requires k + 1 < |fl| ==> End(b) <= fl[k + 1].start
    ensures var r := fl[k := Block(fl[k].start, fl[k].size + b.size)];
      Ordered(r) && forall p :: Holds(r, p) <==> Holds(fl, p) || Covers(b, p)
  {
    var m := Block(fl[k].start, fl[k].size + b.size);
    var r := fl[k := m];
    forall p
      ensures Holds(r, p) <==> Holds(fl, p) || Covers(b, p)
    {
      if Covers(fl[k], p) || Covers(b, p) {
        assert Covers(r[k], p);
      }
      if Holds(r, p) {
        var j :| 0 <= j < |r| && Covers(r[j], p);
        if j != k {
          assert Covers(fl[j], p);
        }
      }
      if Holds(fl, p) {
        var j :| 0 <= j < |fl| && Covers(fl[j], p);
        assert Covers(r[j], p);
      }
    }
  }

  lemma InsertCells(fl: seq<Block>, b: Block, i: nat)
    requires Ordered(fl) && b.size > 0 && i <= |fl|
    requires i > 0 ==> End(fl[i - 1]) <= b.start
    requires i < |fl| ==> End(b) <= fl[i].start
    ensures var r := fl[..i] + [b] + fl[i..];
      Ordered(r) && forall p :: Holds(r, p) <==> Holds(fl, p) || Covers(b, p)
  {
    InsertOrdered(fl, b, i);
    InsertHolds(fl, b, i);
  }

  lemma InsertOrdered(fl: seq<Block>, b: Block, i: nat)
    requires Ordered(fl) && b.size > 0 && i <= |fl|
    requires i > 0 ==> End(fl[i - 1]) <= b.start
    requires i < |fl| ==> End(b) <= fl[i].start
    ensures Ordered(fl[..i] + [b] + fl[i..])
  {
    var r := fl[..i] + [b] + fl[i..];
    assert forall j :: 0 <= j < i ==> r[j] == fl[j];
    assert r[i] == b;
    assert forall j :: i < j < |r| ==> r[j] == fl[j - 1];
    forall y | 0 < y < |r|
      ensures End(r[y - 1]) <= r[y].start
    {
      if y == i + 1 {
        assert r[y] == fl[i];
      }
    }
  }

  lemma InsertHolds(fl: seq<Block>, b: Block, i: nat)
    requires i <= |fl|
    ensures forall p :: Holds(fl[..i] + [b] + fl[i..], p) <==> Holds(fl, p) || Covers(b, p)
  {
    var r := fl[..i] + [b] + fl[i..];
    forall p
      ensures Holds(r, p) <==> Holds(fl, p) || Covers(b, p)
    {
      if Holds(fl, p) {
        var j :| 0 <= j < |fl| && Covers(fl[j], p);
        if j < i {
          assert r[j] == fl[j];
        } else {
          assert r[j + 1] == fl[j];
        }
      }
      if Covers(b, p) {
        assert r[i] == b;
      }
      if Holds(r, p) {
        var j :| 0 <= j < |r| && Covers(r[j], p);
        if j < i {
          assert r[j] == fl[j];
        } else if j > i {
          assert r[j] == fl[j - 1];
        }
      }
    }
  }
  /** In an ordered list every block ends before any later block starts. */
  lemma {:induction false} OrderedApart(bs: seq<Block>, i: nat, j: nat)
    requires Ordered(bs) && i < j < |bs|
    ensures End(bs[i]) <= bs[j].start
    decreases j - i
  {
    if i + 1 < j {
      OrderedApart(bs, i + 1, j);
    }
  }

  /** A cell lies in at most one block of an ordered list. */
  lemma OrderedOnce(bs: seq<Block>, i: nat, j: nat, p: int)
    requires Ordered(bs) && i < |bs| && j < |bs| && i != j
    ensures !(Covers(bs[i], p) && Covers(bs[j], p))
  {
    if i < j {
      OrderedApart(bs, i, j);
    } else {
      OrderedApart(bs, j, i);
    }
  }

  /** The free scan of Move from index k: the first block big enough for
      size cells, or |free| when a block past at or the end of the list
      comes first. */
  function Fit(free: seq<Block>, at: int, size: int, k: nat): (i: nat)
    requires k <= |free|
    ensures k <= i <= |free|
    ensures i < |free| ==> free[i].start <= at && free[i].size >= size
    ensures i < |free| ==> forall j :: k <= j < i ==> free[j].start <= at && free[j].size < size
    decreases |free| - k
  {
    if k == |free| || free[k].start > at then |free|
    else if free[k].size < size then Fit(free, at, size, k + 1)
    else k
  }

  /** The scan is first fit: it fails exactly when no block at or below at
      is big enough. */
  lemma {:induction false} FitFirst(free: seq<Block>, at: int, size: int, k: nat)
    requires Ordered(free) && k <= |free|
    ensures Fit(free, at, size, k) == |free| <==>
      forall j :: k <= j < |free| && free[j].start <= at ==> free[j].size < size
    decreases |free| - k
  {
    if k < |free| {
      if free[k].start > at {
        forall j | k < j < |free|
          ensures free[j].start > at
        {
          OrderedApart(free, k, j);
        }
      } else if free[k].size < size {
        FitFirst(free, at, size, k + 1);
      }
    }
  }

  /** The file system: the files by id, and the free list. */
  datatype Disk = Disk(fat: seq<File>, free: seq<Block>)

  /** Every file has a first block and a positive size. */
  predicate Linked(d: Disk) {
    forall j :: 0 <= j < |d.fat| ==> d.fat[j] != [] && Size(d.fat[j]) > 0
  }

  /** No cell belongs to two files, or to a file and the free list. */
  ghost predicate Disjoint(d: Disk) {
    (forall p, j, k :: 0 <= j < k < |d.fat| ==> !(Holds(d.fat[j], p) && Holds(d.fat[k], p))) &&
    (forall p, j :: 0 <= j < |d.fat| ==> !(Holds(d.fat[j], p) && Holds(d.free, p)))
  }

  /** The invariant of the file system. */
  ghost predicate Valid(d: Disk) {
    Linked(d) && Ordered(d.free) && Disjoint(d)
  }

  /** Move: relocate file fid as a whole into the first free block that is
      big enough and does not lie past the file. A larger block gives up its
      front; a block of exactly the size leaves the free list. The cells the
      file leaves are not returned to the free list. */
  function Move(d: Disk, fid: nat): (r: Disk)
    requires fid < |d.fat| && d.fat[fid] != []
    ensures |r.fat| == |d.fat| && r.fat[fid] != []
    ensures forall j :: 0 <= j < |d.fat| && j != fid ==> r.fat[j] == d.fat[j]
  {
    var size := Size(d.fat[fid]);
    var i := Fit(d.free, d.fat[fid][0].start, size, 0);
    if i == |d.free| then d
    else
      var b := d.free[i];
      if b.size > size then Disk(d.fat[fid := [Block(b.start, size)]], d.free[i := Block(b.start + size, b.size - size)])
      else Disk(d.fat[fid := [b]], d.free[..i] + d.free[i + 1..])
  }

  lemma SizeOne(b: Block)
    ensures Size([b]) == b.size
  {
    assert [b][..0] == [];
  }

  /** Move finds a block for file fid. */
  predicate Moves(d: Disk, fid: nat)
    requires fid < |d.fat| && d.fat[fid] != []
  {
    Fit(d.free, d.fat[fid][0].start, Size(d.fat[fid]), 0) < |d.free|
  }

  /** Move never places a file at a higher address and keeps its size. */
  lemma MoveLower(d: Disk, fid: nat)
    requires fid < |d.fat| && d.fat[fid] != []
    ensures var r := Move(d, fid);
      r.fat[fid][0].start <= d.fat[fid][0].start && Size(r.fat[fid]) == Size(d.fat[fid])
  {
    var f := d.fat[fid];
    var i := Fit(d.free, f[0].start, Size(f), 0);
    if i < |d.free| {
      var b := d.free[i];
      SizeOne(Block(b.start, Size(f)));
      SizeOne(b);
    }
  }

  /** A file of positive size is left where it was exactly when no free
      block before it is big enough. */
  lemma MoveWhen(d: Disk, fid: nat)
    requires fid < |d.fat| && d.fat[fid] != [] && Ordered(d.free) && Size(d.fat[fid]) > 0
    ensures Move(d, fid) == d <==> !Moves(d, fid)
    ensures !Moves(d, fid) <==> forall j :: 0 <= j < |d.free| && d.free[j].start <= d.fat[fid][0].start ==>
      d.free[j].size < Size(d.fat[fid])
  {
    var f := d.fat[fid];
    var i := Fit(d.free, f[0].start, Size(f), 0);
    FitFirst(d.free, f[0].start, Size(f), 0);
    if i < |d.free| {
      var b := d.free[i];
      if b.size > Size(f) {
        assert Move(d, fid).free[i].start != b.start;
      } else {
        assert |Move(d, fid).free| < |d.free|;
      }
    }
  }

  /** The block Move gives the file. */
  function Target(d: Disk, fid: nat): Block
    requires fid < |d.fat| && d.fat[fid] != []
  {
    Move(d, fid).fat[fid][0]
  }

  /** When it moves a file, Move takes exactly the new block's cells out of
      the free list and keeps it ordered. */
  lemma MoveFree(d: Disk, fid: nat)
    requires fid < |d.fat| && d.fat[fid] != [] && Size(d.fat[fid]) >= 0 && Ordered(d.free) && Moves(d, fid)
    ensures var r, t := Move(d, fid), Target(d, fid);
      Ordered(r.free) && r.fat[fid] == [t] &&
      forall p :: (Holds(r.free, p) <==> Holds(d.free, p) && !Covers(t, p)) && (Covers(t, p) ==> Holds(d.free, p))
  {
    var f := d.fat[fid];
    var i := Fit(d.free, f[0].start, Size(f), 0);
    if d.free[i].size > Size(f) {
      ShrinkFree(d.free, i, Size(f));
    } else {
      DeleteFree(d.free, i);
      assert forall p :: Covers(d.free[i], p) ==> Holds(d.free, p);
    }
  }

  /** Giving up the first size cells of block i keeps the list ordered and
      drops exactly those cells. */
  lemma ShrinkFree(fl: seq<Block>, i: nat, size: int)
    requires Ordered(fl) && i < |fl| && 0 <= size < fl[i].size
    ensures var t, r := Block(fl[i].start, size), fl[i := Block(fl[i].start + size, fl[i].size - size)];
      Ordered(r) && forall p :: (Holds(r, p) <==> Holds(fl, p) && !Covers(t, p)) && (Covers(t, p) ==> Holds(fl, p))
  {
    var t, r := Block(fl[i].start, size), fl[i := Block(fl[i].start + size, fl[i].size - size)];
    forall p
      ensures (Holds(r, p) <==> Holds(fl, p) && !Covers(t, p)) && (Covers(t, p) ==> Holds(fl, p))
    {
      assert Covers(t, p) ==> Covers(fl[i], p);
      assert Covers(r[i], p) ==> Covers(fl[i], p) && !Covers(t, p);
      if Holds(r, p) {
        var j :| 0 <= j < |r| && Covers(r[j], p);
        if j != i {
          assert Covers(fl[j], p);
          OrderedOnce(fl, i, j, p);
        }
      }
      if Holds(fl, p) && !Covers(t, p) {
        var j :| 0 <= j < |fl| && Covers(fl[j], p);
        assert Covers(r[j], p);
      }
    }
    forall y | 0 < y < |r|
      ensures End(r[y - 1]) <= r[y].start
    {
      assert fl[y - 1].start <= r[y - 1].start && End(r[y - 1]) == End(fl[y - 1]);
    }
  }
  /** Deleting block i of an ordered list keeps it ordered and drops exactly
      that block's cells. */
  lemma DeleteFree(fl: seq<Block>, i: nat)
    requires Ordered(fl) && i < |fl|
    ensures var r := fl[..i] + fl[i + 1..];
      Ordered(r) && forall p :: Holds(r, p) <==> Holds(fl, p) && !Covers(fl[i], p)
  {
    var r := fl[..i] + fl[i + 1..];
    assert forall j :: 0 <= j < i ==> r[j] == fl[j];
    assert forall j :: i <= j < |r| ==> r[j] == fl[j + 1];
    forall y | 0 < y < |r|
      ensures End(r[y - 1]) <= r[y].start
    {
      if y == i {
        OrderedApart(fl, i - 1, i + 1);
      }
    }
    DeleteHolds(fl, i);
  }

  lemma DeleteHolds(fl: seq<Block>, i: nat)
    requires Ordered(fl) && i < |fl|
    ensures forall p :: Holds(fl[..i] + fl[i + 1..], p) <==> Holds(fl, p) && !Covers(fl[i], p)
  {
    var r := fl[..i] + fl[i + 1..];
    forall p
      ensures Holds(r, p) <==> Holds(fl, p) && !Covers(fl[i], p)
    {
      if Holds(r, p) {
        var j :| 0 <= j < |r| && Covers(r[j], p);
        var k := if j < i then j else j + 1;
        assert r[j] == fl[k];
        OrderedOnce(fl, i, k, p);
      }
      if Holds(fl, p) && !Covers(fl[i], p) {
        var j :| 0 <= j < |fl| && Covers(fl[j], p);
        if j < i {
          assert r[j] == fl[j];
        } else {
          assert r[j - 1] == fl[j];
        }
      }
    }
  }

  lemma HoldsOne(b: Block, p: int)
    ensures Holds([b], p) <==> Covers(b, p)
  {
    assert Covers(b, p) ==> Covers([b][0], p);
  }

  /** Move keeps the file system valid: the moved file's new cells were
      free, so they belong to no other file, and they leave the free list. */
  lemma MoveValid(d: Disk, fid: nat)
    requires Valid(d) && fid < |d.fat|
    ensures Valid(Move(d, fid))
  {
    var r := Move(d, fid);
    MoveLower(d, fid);
    if Moves(d, fid) {
      MoveFree(d, fid);
      var t := Target(d, fid);
      forall p, j, k | 0 <= j < k < |r.fat|
        ensures !(Holds(r.fat[j], p) && Holds(r.fat[k], p))
      {
        HoldsOne(t, p);
        if j == fid {
          assert Holds(r.fat[j], p) ==> Holds(d.free, p);
        } else if k == fid {
          assert Holds(r.fat[k], p) ==> Holds(d.free, p);
        } else {
          assert r.fat[j] == d.fat[j] && r.fat[k] == d.fat[k];
        }
      }
      forall p, j | 0 <= j < |r.fat|
        ensures !(Holds(r.fat[j], p) && Holds(r.free, p))
      {
        HoldsOne(t, p);
        if j != fid {
          assert r.fat[j] == d.fat[j];
        }
      }
    }
  }

  /** fsmap with Move, as written: files from the highest id down, stopping
      at the first file that starts before the first free block. It reads
      the first free block without checking that there is one; None is the
      index panic when the free list is empty. */
  function DefragAsWritten(d: Disk, fid: int): (r: Option<Disk>)
    requires -1 <= fid < |d.fat| && Linked(d)
    decreases fid + 1
  {
    if fid < 0 then Some(d)
    else if d.free == [] then None
    else if d.fat[fid][0].start < d.free[0].start then Some(d)
    else
      MoveLinked(d, fid);
      DefragAsWritten(Move(d, fid), fid - 1)
  }

  /** Defrag, corrected: the scan also stops once no free block is left. */
  function Defrag(d: Disk, fid: int): (r: Disk)
    requires -1 <= fid < |d.fat| && Linked(d)
    ensures |r.fat| == |d.fat| && Linked(r)
    decreases fid + 1
  {
    if fid < 0 || d.free == [] || d.fat[fid][0].start < d.free[0].start then d
    else
      MoveLinked(d, fid);
      Defrag(Move(d, fid), fid - 1)
  }

  lemma MoveLinked(d: Disk, fid: nat)
    requires fid < |d.fat| && Linked(d)
    ensures Linked(Move(d, fid))
  {
    MoveLower(d, fid);
  }

  /** Where the as-written scan answers, it agrees with the corrected one. */
  lemma {:induction false} DefragAgrees(d: Disk, fid: int)
    requires -1 <= fid < |d.fat| && Linked(d)
    ensures DefragAsWritten(d, fid).Some? ==> DefragAsWritten(d, fid).value == Defrag(d, fid)
    decreases fid + 1
  {
    if fid >= 0 && d.free != [] && d.fat[fid][0].start >= d.free[0].start {
      MoveLinked(d, fid);
      DefragAgrees(Move(d, fid), fid - 1);
    }
  }

  /** Defrag keeps the file system valid. */
  lemma {:induction false} DefragValid(d: Disk, fid: int)
    requires -1 <= fid < |d.fat| && Valid(d)
    ensures Valid(Defrag(d, fid))
    decreases fid + 1
  {
    if fid >= 0 && d.free != [] && d.fat[fid][0].start >= d.free[0].start {
      MoveValid(d, fid);
      DefragValid(Move(d, fid), fid - 1);
    }
  }

  /** Defrag moves every file only towards the front and keeps its size. */
  lemma {:induction false} DefragLower(d: Disk, fid: int)
    requires -1 <= fid < |d.fat| && Linked(d)
    ensures var r := Defrag(d, fid);
      forall j :: 0 <= j < |d.fat| ==> r.fat[j][0].start <= d.fat[j][0].start && Size(r.fat[j]) == Size(d.fat[j])
    decreases fid + 1
  {
    if fid >= 0 && d.free != [] && d.fat[fid][0].start >= d.free[0].start {
      MoveLower(d, fid);
      MoveLinked(d, fid);
      DefragLower(Move(d, fid), fid - 1);
    }
  }

  /** The disk length of the first digits. */
  function Total(ds: seq<nat>): nat {
    if ds == [] then 0 else Total(ds[..|ds| - 1]) + ds[|ds| - 1]
  }

  /** main's reading of the disk map: digit k is a run of that many cells
      starting where the previous runs end, a file when k is even (linked
      under the next id) and free space when k is odd (appended to the free
      list); a zero digit adds nothing. */
  function Layout(ds: seq<nat>): Disk {
    if ds == [] then Disk([], [])
    else
      var k := |ds| - 1;
      var d, b := Layout(ds[..k]), Block(Total(ds[..k]), ds[k]);
      if ds[k] == 0 then d
      else if k % 2 == 0 then Disk(d.fat + [[b]], d.free)
      else Disk(d.fat, d.free + [b])
  }

  /** Every cell in use lies between 0 and n. */
  ghost predicate Within(d: Disk, n: int) {
    (forall p, j :: 0 <= j < |d.fat| && Holds(d.fat[j], p) ==> 0 <= p < n) &&
    (forall p :: Holds(d.free, p) ==> 0 <= p < n)
  }

  /** The disk main builds is a valid file system lying inside the disk's
      length. */
  lemma {:induction false} LayoutValid(ds: seq<nat>)
    ensures Valid(Layout(ds)) && Within(Layout(ds), Total(ds))
    decreases |ds|
  {
    if ds != [] {
      var k := |ds| - 1;
      var d, b := Layout(ds[..k]), Block(Total(ds[..k]), ds[k]);
      LayoutValid(ds[..k]);
      if ds[k] > 0 {
        SizeOne(b);
        forall p
          ensures Holds([b], p) <==> Covers(b, p)
        {
          HoldsOne(b, p);
        }
        if k % 2 == 0 {
          AddFile(d, b, Total(ds[..k]));
        } else {
          AddFree(d, b, Total(ds[..k]));
        }
      }
    }
  }

  lemma AddFile(d: Disk, b: Block, n: int)
    requires Valid(d) && Within(d, n) && 0 <= n == b.start && b.size > 0
    ensures Valid(Disk(d.fat + [[b]], d.free)) && Within(Disk(d.fat + [[b]], d.free), End(b))
  {
    var r := Disk(d.fat + [[b]], d.free);
    var m := |d.fat|;
    SizeOne(b);
    assert forall j :: 0 <= j < m ==> r.fat[j] == d.fat[j];
    assert r.fat[m] == [b];
    forall p
      ensures Holds(r.fat[m], p) <==> Covers(b, p)
    {
      HoldsOne(b, p);
    }
    assert Linked(r);
    forall p, j, k | 0 <= j < k < |r.fat|
      ensures !(Holds(r.fat[j], p) && Holds(r.fat[k], p))
    {
      if k == m {
        assert Holds(r.fat[j], p) ==> p < n;
      }
    }
    forall p, j | 0 <= j < |r.fat|
      ensures !(Holds(r.fat[j], p) && Holds(r.free, p))
    {
      if j == m {
        assert Holds(r.free, p) ==> p < n;
      }
    }
    forall p, j | 0 <= j < |r.fat| && Holds(r.fat[j], p)
      ensures 0 <= p < End(b)
    {
      if j < m {
        assert p < n;
      }
    }
  }

  lemma AddFree(d: Disk, b: Block, n: int)
    requires Valid(d) && Within(d, n) && 0 <= n == b.start && b.size > 0
    ensures Valid(Disk(d.fat, d.free + [b])) && Within(Disk(d.fat, d.free + [b]), End(b))
  {
    var r := Disk(d.fat, d.free + [b]);
    var m := |d.free|;
    if d.free != [] {
      var l := d.free[m - 1];
      assert Covers(l, End(l) - 1);
      assert Holds(d.free, End(l) - 1);
    }
    assert forall j :: 0 <= j < m ==> r.free[j] == d.free[j];
    assert r.free[m] == b;
    assert Ordered(r.free);
    forall p
      ensures Holds(r.free, p) <==> Holds(d.free, p) || Covers(b, p)
    {
      if Holds(r.free, p) {
        var j :| 0 <= j < |r.free| && Covers(r.free[j], p);
        if j < m {
          assert Covers(d.free[j], p);
        }
      }
      if Holds(d.free, p) {
        var j :| 0 <= j < m && Covers(d.free[j], p);
        assert Covers(r.free[j], p);
      }
      if Covers(b, p) {
        assert Covers(r.free[m], p);
      }
    }
    forall p, j | 0 <= j < |r.fat|
      ensures !(Holds(r.fat[j], p) && Holds(r.free, p))
    {
      assert Holds(r.fat[j], p) ==> p < n;
    }
  }

  /** The disk map "111": file 0 in cell 0, one free cell, file 1 in
      cell 2. */
  lemma LayoutShort()
    ensures Layout([1, 1, 1]) == Disk([[Block(0, 1)], [Block(2, 1)]], [Block(1, 1)])
  {
    assert [1, 1, 1][..2] == [1, 1] && [1, 1][..1] == [1] && [1][..0] == [];
  }

  /** On "111" file 1 fills the only free cell exactly. */
  lemma MoveShort()
    ensures var d := Disk([[Block(0, 1)], [Block(2, 1)]], [Block(1, 1)]);
      Move(d, 1) == Disk([[Block(0, 1)], [Block(1, 1)]], [])
  {
    SizeOne(Block(2, 1));
    assert Fit([Block(1, 1)], 2, 1, 0) == 0;
  }

  /** After that move the free list is empty, and the as-written scan then
      reads a free block that is not there when it comes to file 0; the
      corrected scan stops with file 1 next to file 0. */
  lemma DefragShort()
    ensures var d := Disk([[Block(0, 1)], [Block(2, 1)]], [Block(1, 1)]);
      Linked(d) && DefragAsWritten(d, 1) == None &&
      Defrag(d, 1) == Disk([[Block(0, 1)], [Block(1, 1)]], [])
  {
    SizeOne(Block(0, 1));
    SizeOne(Block(2, 1));
    MoveShort();
  }

  /** Unlink: every block of the file returned to the free list, first to
      last. */
  function Unlink(fl: seq<Block>, f: File): seq<Block> {
    if f == [] then fl else Free(Unlink(fl, f[..|f| - 1]), f[|f| - 1])
  }

  /** The blocks of a file are non-empty, share no cell with each other and
      none with the free list. */
  ghost predicate Separate(fl: seq<Block>, f: File) {
    (forall k :: 0 <= k < |f| ==> f[k].size > 0 && Apart(f[k], fl)) &&
    (forall p, i, j :: 0 <= i < j < |f| ==> !(Covers(f[i], p) && Covers(f[j], p)))
  }

  /** Unlink keeps the free list ordered and adds exactly the file's cells. */
  lemma {:induction false} UnlinkCells(fl: seq<Block>, f: File)
    requires Ordered(fl) && Separate(fl, f)
    ensures Ordered(Unlink(fl, f))
    ensures forall p :: Holds(Unlink(fl, f), p) <==> Holds(fl, p) || Holds(f, p)
    decreases |f|
  {
    if f != [] {
      var k := |f| - 1;
      var g, b := f[..k], f[k];
      assert Separate(fl, g) by {
        assert forall i :: 0 <= i < k ==> g[i] == f[i];
      }
      UnlinkCells(fl, g);
      var u := Unlink(fl, g);
      assert forall i :: 0 <= i < k ==> g[i] == f[i];
      FreeCells(u, b);
      forall p
        ensures Holds(f, p) <==> Holds(g, p) || Covers(b, p)
      {
        if Holds(f, p) {
          var i :| 0 <= i < |f| && Covers(f[i], p);
          if i < k {
            assert Covers(g[i], p);
          }
        }
        if Holds(g, p) {
          var i :| 0 <= i < k && Covers(g[i], p);
          assert Covers(f[i], p);
        }
      }
    }
  }

  /** The sum of the positions a run of size cells from start covers. */
  function CellSum(start: int, size: int): int
    decreases size
  {
    if size <= 0 then 0 else CellSum(start, size - 1) + start + size - 1
  }

  /** The positions of a block add up to the arithmetic series. */
  lemma {:induction false} CellSumClosed(start: int, size: nat)
    ensures 2 * CellSum(start, size) == size * (2 * start + size - 1)
  {
    if size > 0 {
      CellSumClosed(start, size - 1);
    }
  }

  /** The closed form of a block's position sum. */
  function Series(b: Block): int {
    if b.size <= 0 then 0 else b.size * (2 * b.start + b.size - 1) / 2
  }

  lemma SeriesSum(b: Block)
    ensures Series(b) == CellSum(b.start, b.size)
  {
    if b.size > 0 {
      CellSumClosed(b.start, b.size);
    }
  }

  /** The position sum of a file, block by block. */
  function Weight(f: File): int {
    if f == [] then 0 else Weight(f[..|f| - 1]) + Series(f[|f| - 1])
  }

  /** The checksum as a formula: every file's id times its position sum. */
  function Score(fat: seq<File>): int {
    if fat == [] then 0 else Score(fat[..|fat| - 1]) + (|fat| - 1) * Weight(fat[|fat| - 1])
  }

  lemma Distribute(a: int, x: int, y: int)
    ensures a * (x + y) == a * x + a * y
  {
  }

  /** Checksum: id times position, added cell by cell over every block of
      every file; it equals the closed form. */
  method Checksum(d: Disk) returns (checksum: int)
    ensures checksum == Score(d.fat)
  {
    checksum := 0;
    for i := 0 to |d.fat|
      invariant checksum == Score(d.fat[..i])
    {
      var file := d.fat[i];
      ghost var base := checksum;
      for k := 0 to |file|
        invariant checksum == base + i * Weight(file[..k])
      {
        var block := file[k];
        checksum := AddCells(checksum, block, i);
        assert file[..k + 1][..k] == file[..k];
        Distribute(i, Weight(file[..k]), Series(block));
      }
      assert file[..|file|] == file;
      assert d.fat[..i + 1][..i] == d.fat[..i];
    }
    assert d.fat[..|d.fat|] == d.fat;
  }

  /** Checksum's innermost loop: the cells of one block of file fid. */
  method AddCells(acc: int, block: Block, fid: int) returns (r: int)
    ensures r == acc + fid * Series(block)
  {
    r := acc;
    for j := 0 to if block.size < 0 then 0 else block.size
      invariant r == acc + fid * CellSum(block.start, j)
    {
      Distribute(fid, CellSum(block.start, j), block.start + j);
      r := r + (block.start + j) * fid;
    }
    SeriesSum(block);
  }
}
