/** Hot Springs (2023/12/aoc12.go): the number of ways to place runs of
    damaged springs ('#') of the given lengths in a row where '.' is
    operational and any other character is unknown. The source fills a
    dynamic-programming table two rows at a time; Ways is the placement
    recursion it is proved against. */
module Springs {
  predicate NoHash(p: string) {
    forall i :: 0 <= i < |p| ==> p[i] != '#'
  }

  predicate NoDot(p: string) {
    forall i :: 0 <= i < |p| ==> p[i] != '.'
  }

  /** The placements of blocks bs in p, each block a run of non-'.' cells
      preceded by a cell that is not '#', every '#' covered by a block. */
  function Ways(p: string, bs: seq<nat>): nat
    decreases |p|, |bs|
  {
    if bs == [] then (if NoHash(p) then 1 else 0)
    else if |p| == 0 then 0
    else
      var n, b := |p|, bs[|bs| - 1];
      (if p[n - 1] != '#' then Ways(p[..n - 1], bs) else 0) +
      (if n >= b + 1 && NoDot(p[n - b..]) && p[n - b - 1] != '#'
       then Ways(p[..n - b - 1], bs[..|bs| - 1]) else 0)
  }

  function TrimRight(p: string): (r: string)
    ensures |r| <= |p| && r == p[..|r|]
    ensures r == [] || r[|r| - 1] != '.'
    ensures forall i :: |r| <= i < |p| ==> p[i] == '.'
  {
    if p == [] || p[|p| - 1] != '.' then p else TrimRight(p[..|p| - 1])
  }

  /** The row solve works on: a leading '.' so every block has a cell
      before it, trailing '.' dropped. */
  function Prep(springs: string): (s: string)
    ensures |s| >= 1 && s[0] == '.'
  {
    "." + TrimRight(springs)
  }

  /** Trailing operational springs change no count, for blocks of positive
      length: trimming them is harmless. */
  lemma DotAtEnd(p: string, bs: seq<nat>)
    requires forall i :: 0 <= i < |bs| ==> bs[i] > 0
    ensures Ways(p + ".", bs) == Ways(p, bs)
  {
    var q := p + ".";
    assert q[..|q| - 1] == p;
    if bs == [] {
      assert NoHash(q) <==> NoHash(p) by {
        assert forall i :: 0 <= i < |p| ==> q[i] == p[i];
      }
    } else {
      var b := bs[|bs| - 1];
      if b <= |q| {
        assert q[|q| - b..][b - 1] == '.';
      }
    }
  }

  lemma {:induction false} TrimWays(p: string, bs: seq<nat>)
    requires forall i :: 0 <= i < |bs| ==> bs[i] > 0
    ensures Ways("." + TrimRight(p), bs) == Ways("." + p, bs)
    decreases |p|
  {
    if p != [] && p[|p| - 1] == '.' {
      var q := p[..|p| - 1];
      TrimWays(q, bs);
      assert "." + p == ("." + q) + ".";
      DotAtEnd("." + q, bs);
    }
  }

  /** The length of the run of non-'.' cells that p ends with. */
  function Run(p: string): (k: nat)
    ensures k <= |p|
  {
    if p == [] || p[|p| - 1] == '.' then 0 else 1 + Run(p[..|p| - 1])
  }

  lemma {:induction false} RunSuffix(p: string)
    ensures NoDot(p[|p| - Run(p)..])
    ensures Run(p) < |p| ==> p[|p| - Run(p) - 1] == '.'
    decreases |p|
  {
    if p != [] && p[|p| - 1] != '.' {
      var q := p[..|p| - 1];
      RunSuffix(q);
      assert p[|p| - Run(p)..] == q[|q| - Run(q)..] + [p[|p| - 1]];
    }
  }

  lemma RunSnoc(s: string, i: nat)
    requires i < |s|
    ensures Run(s[..i + 1]) == if s[i] == '.' then 0 else Run(s[..i]) + 1
  {
    assert s[..i + 1][..i] == s[..i];
  }

  /** A block of length b fits at the end of p exactly when the final run is
      at least b long. */
  lemma RunFits(p: string, b: nat)
    requires b <= |p|
    ensures NoDot(p[|p| - b..]) <==> Run(p) >= b
  {
    var k := Run(p);
    RunSuffix(p);
    assert k < b ==> p[|p| - b..][b - k - 1] == p[|p| - k - 1];
  }

  /** Cell j of a table row: the placements in the first j cells. */
  ghost function Cell(s: string, j: nat, bs: seq<nat>): nat
    requires j <= |s|
  {
    Ways(s[..j], bs)
  }

  /** The recurrence one cell of the table follows. */
  lemma WaysStep(s: string, i: nat, bs: seq<nat>)
    requires i < |s| && bs != []
    ensures var b := bs[|bs| - 1];
      Cell(s, i + 1, bs) ==
        (if s[i] != '#' then Cell(s, i, bs) else 0) +
        (if i >= b && Run(s[..i + 1]) >= b && s[i - b] != '#' then Cell(s, i - b, bs[..|bs| - 1]) else 0)
  {
    var p, b := s[..i + 1], bs[|bs| - 1];
    assert p[..i] == s[..i];
    if i >= b {
      RunFits(p, b);
      assert p[..i - b] == s[..i - b];
    }
  }

  /** The value the two updates of one step leave in cell i + 1. */
  lemma CellValue(s: string, i: nat, bs: seq<nat>, build: nat, a: nat, c: nat)
    requires i < |s| && bs != [] && build == Run(s[..i + 1])
    requires (i > 0 ==> build <= i) && (i == 0 ==> build == 0)
    requires a == Cell(s, i, bs)
    requires var b := bs[|bs| - 1]; i >= b ==> c == Cell(s, i - b, bs[..|bs| - 1])
    ensures var b := bs[|bs| - 1];
      Cell(s, i + 1, bs) ==
        (if s[i] != '#' then a else 0) + (if build >= b && s[i - b] != '#' then c else 0)
  {
    WaysStep(s, i, bs);
  }

  /** solve: the first row counts the prefixes free of '#', then one row per
      block; the last cell of the last row is the answer. */
  method Solve(springs: string, blocks: seq<nat>) returns (r: nat)
    ensures r == Ways(Prep(springs), blocks)
  {
    var s := Prep(springs);
    var cur := FirstRow(s);
    for k := 0 to |blocks|
      invariant |cur| == |s| + 1
      invariant forall j :: 0 <= j <= |s| ==> cur[j] == Cell(s, j, blocks[..k])
    {
      var bs := blocks[..k + 1];
      assert bs[..|bs| - 1] == blocks[..k] && bs[|bs| - 1] == blocks[k];
      cur := NextRow(s, cur, blocks[k], bs);
    }
    assert s[..|s|] == s && blocks[..|blocks|] == blocks;
    r := cur[|s|];
  }

  /** cur[j] is 1 up to the first '#' and 0 from there on. */
  method FirstRow(s: string) returns (cur: seq<nat>)
    ensures |cur| == |s| + 1
    ensures forall j :: 0 <= j <= |s| ==> cur[j] == Cell(s, j, [])
  {
    var n := |s|;
    cur := seq(n + 1, j => if j == 0 then 1 else 0);
    var i := 0;
    while i < n && s[i] != '#'
      invariant 0 <= i <= n && |cur| == n + 1
      invariant NoHash(s[..i])
      invariant forall j :: 0 <= j <= i ==> cur[j] == 1
      invariant forall j :: i < j <= n ==> cur[j] == 0
    {
      cur := cur[i + 1 := 1];
      i := i + 1;
    }
    forall j | 0 <= j <= n
      ensures cur[j] == Cell(s, j, [])
    {
      if j > i {
        assert s[..j][i] == '#';
      } else {
        assert s[..j] == s[..i][..j];
      }
    }
  }

  /** One block: build is the length of the run of non-'.' cells ending at
      i; a cell that is not '#' carries the count of the cell before, and
      when the block fits before it (with a cell that is not '#' in front)
      the previous row's count there is added. */
  method NextRow(s: string, cur: seq<nat>, block: nat, ghost bs: seq<nat>) returns (nxt: seq<nat>)
    requires |s| >= 1 && s[0] == '.' && |cur| == |s| + 1
    requires bs != [] && bs[|bs| - 1] == block
    requires forall j :: 0 <= j <= |s| ==> cur[j] == Cell(s, j, bs[..|bs| - 1])
    ensures |nxt| == |s| + 1
    ensures forall j :: 0 <= j <= |s| ==> nxt[j] == Cell(s, j, bs)
  {
    var n := |s|;
    nxt := seq(n + 1, _ => 0);
    var build := 0;
    for i := 0 to n
      invariant |nxt| == n + 1
      invariant build == Run(s[..i]) && (i > 0 ==> build < i)
      invariant forall j :: 0 <= j <= i ==> nxt[j] == Cell(s, j, bs)
      invariant forall j :: i < j <= n ==> nxt[j] == 0
    {
      RunSnoc(s, i);
      ghost var prev := nxt;
      build := build + 1;
      if s[i] == '.' {
        build := 0;
      }
      if s[i] != '#' {
        nxt := nxt[i + 1 := nxt[i]];
      }
      if build >= block && s[i - block] != '#' {
        nxt := nxt[i + 1 := nxt[i + 1] + cur[i - block]];
      }
      assert nxt == prev[i + 1 := (if s[i] != '#' then prev[i] else 0) +
        (if build >= block && s[i - block] != '#' then cur[i - block] else 0)];
      CellValue(s, i, bs, build, prev[i], if i >= block then cur[i - block] else 0);
    }
  }
}
