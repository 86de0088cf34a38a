/** Giant Squid (2021/4/aoc4.go): bingo cards of five rows of five numbers.
    A card keeps, per row and per column, the sum of its numbers not yet
    drawn, and where each number sits; a draw subtracts the number from its
    row and column, and the card wins when one of them reaches 0. The
    model relates a card to its grid of numbers and the set of numbers
    drawn. */
module Bingo {
  datatype Coo = Coo(r: int, c: int)

  /** card: the row sums, the column sums and the position of each number. */
  datatype Card = Card(row: seq<int>, col: seq<int>, val: map<int, Coo>)

  /** The card's arrays hold five sums each and every position is on the
      card. */
  predicate Shaped(ca: Card) {
    |ca.row| == 5 && |ca.col| == 5 &&
    forall n :: n in ca.val ==> 0 <= ca.val[n].r < 5 && 0 <= ca.val[n].c < 5
  }

  /** newCard: no numbers, every sum 0. */
  function NewCard(): (ca: Card)
    ensures Shaped(ca) && ca.val == map[]
  {
    Card([0, 0, 0, 0, 0], [0, 0, 0, 0, 0], map[])
  }

  /** add: n goes to row r and column c. */
  function Add(ca: Card, n: int, r: int, c: int): (res: Card)
    requires Shaped(ca) && 0 <= r < 5 && 0 <= c < 5
    ensures Shaped(res) && res.val == ca.val[n := Coo(r, c)]
    ensures res.row[r] == ca.row[r] + n && res.col[c] == ca.col[c] + n
    ensures forall i :: 0 <= i < 5 && i != r ==> res.row[i] == ca.row[i]
    ensures forall j :: 0 <= j < 5 && j != c ==> res.col[j] == ca.col[j]
  {
    Card(ca.row[r := ca.row[r] + n], ca.col[c := ca.col[c] + n], ca.val[n := Coo(r, c)])
  }

  /** biff: a number on the card is taken off its row and column sums, and
      wins when one of the two is then 0; any other number changes nothing
      and does not win. */
  function Biff(ca: Card, n: int): (res: (Card, bool))
    requires Shaped(ca)
    ensures Shaped(res.0) && res.0.val == ca.val
    ensures n !in ca.val ==> res == (ca, false)
    ensures n in ca.val ==> var rc := ca.val[n];
      res.0.row[rc.r] == ca.row[rc.r] - n && res.0.col[rc.c] == ca.col[rc.c] - n
  {
    if n in ca.val then
      var rc := ca.val[n];
      var row := ca.row[rc.r := ca.row[rc.r] - n];
      var col := ca.col[rc.c := ca.col[rc.c] - n];
      (Card(row, col, ca.val), row[rc.r] * col[rc.c] == 0)
    else (ca, false)
  }

  function SumSeq(s: seq<int>): int {
    if s == [] then 0 else SumSeq(s[..|s| - 1]) + s[|s| - 1]
  }

  /** sum: the row sums added up. */
  function Sum(ca: Card): int
    requires Shaped(ca)
  {
    SumSeq(ca.row)
  }

  /** A five by five grid of numbers. */
  predicate Grid(g: seq<seq<int>>) {
    |g| == 5 && forall r :: 0 <= r < 5 ==> |g[r]| == 5
  }

  /** ... with all its numbers different. */
  predicate Board(g: seq<seq<int>>) {
    Grid(g) &&
    forall r, c, r', c' :: 0 <= r < 5 && 0 <= c < 5 && 0 <= r' < 5 && 0 <= c' < 5 && g[r][c] == g[r'][c'] ==> r == r' && c == c'
  }

  function Column(g: seq<seq<int>>, c: int): (s: seq<int>)
    requires Grid(g) && 0 <= c < 5
    ensures |s| == 5 && forall r :: 0 <= r < 5 ==> s[r] == g[r][c]
  {
    [g[0][c], g[1][c], g[2][c], g[3][c], g[4][c]]
  }

  /** The sum of the numbers of s not drawn. */
  function Unmarked(s: seq<int>, drawn: set<int>): int {
    if s == [] then 0
    else Unmarked(s[..|s| - 1], drawn) + if s[|s| - 1] in drawn then 0 else s[|s| - 1]
  }

  /** The card of grid g after the numbers drawn: each sum is the sum of the
      numbers of its row or column not drawn, and each number of the grid
      is recorded at its place. */
  predicate Tracks(ca: Card, g: seq<seq<int>>, drawn: set<int>) {
    Grid(g) && Shaped(ca) && Placed(ca, g) && Sums(ca.row, ca.col, g, drawn)
  }

  /** Each number of the grid is recorded at its place, and nothing else. */
  predicate Placed(ca: Card, g: seq<seq<int>>)
    requires Grid(g) && Shaped(ca)
  {
    (forall r, c :: 0 <= r < 5 && 0 <= c < 5 ==> g[r][c] in ca.val && ca.val[g[r][c]] == Coo(r, c)) &&
    (forall n :: n in ca.val ==> g[ca.val[n].r][ca.val[n].c] == n)
  }

  /** A card that records every number of a grid at its place proves the
      grid's numbers different. */
  lemma PlacedBoard(ca: Card, g: seq<seq<int>>)
    requires Grid(g) && Shaped(ca) && Placed(ca, g)
    ensures Board(g)
  {
    forall r, c, r', c' | 0 <= r < 5 && 0 <= c < 5 && 0 <= r' < 5 && 0 <= c' < 5 && g[r][c] == g[r'][c']
      ensures r == r' && c == c'
    {
      assert ca.val[g[r][c]] == Coo(r, c) && ca.val[g[r'][c']] == Coo(r', c');
    }
  }

  /** Each sum is the sum of the numbers of its row or column not drawn. */
  predicate Sums(row: seq<int>, col: seq<int>, g: seq<seq<int>>, drawn: set<int>)
    requires Grid(g) && |row| == 5 && |col| == 5
  {
    (forall r :: 0 <= r < 5 ==> row[r] == Unmarked(g[r], drawn)) &&
    (forall c :: 0 <= c < 5 ==> col[c] == Unmarked(Column(g, c), drawn))
  }

  /** The numbers at row r, column c of grid g already read once rows
      before k and the first j numbers of row k are. */
  predicate Read(k: int, j: int, r: int, c: int) {
    r < k || (r == k && c < j)
  }

  /** How many numbers of row r, and of column c, are read then. */
  function RowLen(k: int, j: int, r: int): int {
    if r < k then 5 else if r == k then j else 0
  }

  function ColLen(k: int, j: int, c: int): int {
    if c < j then k + 1 else k
  }

  /** Where main may be in a board: at line k before its number j. */
  predicate Reading(k: int, j: int) {
    (0 <= k < 5 && 0 <= j <= 5) || (k == 5 && j == 0)
  }

  /** The card holds exactly the numbers read, each at its place, and the
      sums of what was read. */
  predicate Filled(ca: Card, g: seq<seq<int>>, k: int, j: int)
    requires Grid(g) && Shaped(ca) && Reading(k, j)
  {
    RowsFilled(ca.row, g, k, j) && ColsFilled(ca.col, g, k, j) && ValFilled(ca.val, g, k, j)
  }

  predicate RowsFilled(row: seq<int>, g: seq<seq<int>>, k: int, j: int)
    requires Grid(g) && |row| == 5 && Reading(k, j)
  {
    forall r :: 0 <= r < 5 ==> row[r] == SumSeq(g[r][..RowLen(k, j, r)])
  }

  predicate ColsFilled(col: seq<int>, g: seq<seq<int>>, k: int, j: int)
    requires Grid(g) && |col| == 5 && Reading(k, j)
  {
    forall c :: 0 <= c < 5 ==> col[c] == SumSeq(Column(g, c)[..ColLen(k, j, c)])
  }

  predicate ValFilled(val: map<int, Coo>, g: seq<seq<int>>, k: int, j: int)
    requires Grid(g)
  {
    (forall r, c :: 0 <= r < 5 && 0 <= c < 5 && Read(k, j, r, c) ==> g[r][c] in val && val[g[r][c]] == Coo(r, c)) &&
    (forall n :: n in val ==> 0 <= val[n].r < 5 && 0 <= val[n].c < 5 && Read(k, j, val[n].r, val[n].c) && g[val[n].r][val[n].c] == n)
  }

  lemma SumPrefix(s: seq<int>, i: int)
    requires 0 <= i < |s|
    ensures SumSeq(s[..i + 1]) == SumSeq(s[..i]) + s[i]
  {
    assert s[..i + 1][..i] == s[..i];
  }

  lemma RowsStep(row: seq<int>, g: seq<seq<int>>, k: int, j: int)
    requires Grid(g) && |row| == 5 && 0 <= k < 5 && 0 <= j < 5 && RowsFilled(row, g, k, j)
    ensures RowsFilled(row[k := row[k] + g[k][j]], g, k, j + 1)
  {
    SumPrefix(g[k], j);
  }

  lemma ColsStep(col: seq<int>, g: seq<seq<int>>, k: int, j: int)
    requires Grid(g) && |col| == 5 && 0 <= k < 5 && 0 <= j < 5 && ColsFilled(col, g, k, j)
    ensures ColsFilled(col[j := col[j] + g[k][j]], g, k, j + 1)
  {
    SumPrefix(Column(g, j), k);
  }

  lemma ValStep(val: map<int, Coo>, g: seq<seq<int>>, k: int, j: int)
    requires Board(g) && 0 <= k < 5 && 0 <= j < 5 && ValFilled(val, g, k, j)
    ensures ValFilled(val[g[k][j] := Coo(k, j)], g, k, j + 1)
  {
  }

  /** Reading one more number of a line keeps the card filled. */
  lemma AddFilled(ca: Card, g: seq<seq<int>>, k: int, j: int)
    requires Board(g) && Shaped(ca) && 0 <= k < 5 && 0 <= j < 5 && Filled(ca, g, k, j)
    ensures Filled(Add(ca, g[k][j], k, j), g, k, j + 1)
  {
    RowsStep(ca.row, g, k, j);
    ColsStep(ca.col, g, k, j);
    ValStep(ca.val, g, k, j);
  }

  /** Line k read to its end is line k + 1 read to its start. */
  lemma NextLine(ca: Card, g: seq<seq<int>>, k: int)
    requires Grid(g) && Shaped(ca) && 0 <= k < 5 && Filled(ca, g, k, 5)
    ensures Filled(ca, g, k + 1, 0)
  {
    assert forall r :: RowLen(k, 5, r) == RowLen(k + 1, 0, r);
    assert forall c :: 0 <= c < 5 ==> ColLen(k, 5, c) == ColLen(k + 1, 0, c);
    assert forall r, c :: 0 <= c < 5 ==> (Read(k, 5, r, c) <==> Read(k + 1, 0, r, c));
  }

  /** A new card is filled with nothing read. */
  lemma FillNone(g: seq<seq<int>>)
    requires Grid(g)
    ensures Filled(NewCard(), g, 0, 0)
  {
    assert forall r :: 0 <= r < 5 ==> g[r][..0] == [];
    assert forall c :: 0 <= c < 5 ==> Column(g, c)[..0] == [];
  }

  lemma {:induction false} UnmarkedNone(s: seq<int>)
    ensures Unmarked(s, {}) == SumSeq(s)
    decreases |s|
  {
    if s != [] {
      UnmarkedNone(s[..|s| - 1]);
    }
  }

  /** main's reading of a board: its five lines, each number added at its
      row and column. The card read is the one of the grid with nothing
      drawn. */
  method ReadCard(g: seq<seq<int>>) returns (ca: Card)
    requires Board(g)
    ensures Tracks(ca, g, {})
  {
    ca := NewCard();
    FillNone(g);
    for k := 0 to 5
      invariant Shaped(ca) && Filled(ca, g, k, 0)
    {
      for j := 0 to 5
        invariant Shaped(ca) && Filled(ca, g, k, j)
      {
        AddFilled(ca, g, k, j);
        ca := Add(ca, g[k][j], k, j);
      }
      NextLine(ca, g, k);
    }
    FilledTracks(ca, g);
  }

  lemma FilledTracks(ca: Card, g: seq<seq<int>>)
    requires Grid(g) && Shaped(ca) && Filled(ca, g, 5, 0)
    ensures Tracks(ca, g, {})
  {
    forall k | 0 <= k < 5
      ensures ca.row[k] == Unmarked(g[k], {}) && ca.col[k] == Unmarked(Column(g, k), {})
    {
      assert g[k][..5] == g[k];
      assert Column(g, k)[..5] == Column(g, k);
      UnmarkedNone(g[k]);
      UnmarkedNone(Column(g, k));
    }
  }

  /** Drawing a number that is not in s leaves its sum alone. */
  lemma {:induction false} MarkNone(s: seq<int>, drawn: set<int>, n: int)
    requires n !in s
    ensures Unmarked(s, drawn + {n}) == Unmarked(s, drawn)
    decreases |s|
  {
    if s != [] {
      var k := |s| - 1;
      MarkNone(s[..k], drawn, n);
    }
  }

  /** Drawing the number at place i of s, once there and not drawn before,
      takes it off the sum. */
  lemma {:induction false} MarkOne(s: seq<int>, drawn: set<int>, n: int, i: int)
    requires 0 <= i < |s| && s[i] == n && n !in drawn
    requires forall j :: 0 <= j < |s| && j != i ==> s[j] != n
    ensures Unmarked(s, drawn + {n}) == Unmarked(s, drawn) - n
    decreases |s|
  {
    var k := |s| - 1;
    if i < k {
      MarkOne(s[..k], drawn, n, i);
    } else {
      assert n !in s[..k];
      MarkNone(s[..k], drawn, n);
    }
  }

  /** Drawing n, at row i and column j of the board, takes it off row i's
      sum and leaves every other row's. */
  lemma RowStep(g: seq<seq<int>>, drawn: set<int>, n: int, i: int, j: int, r: int)
    requires Board(g) && 0 <= i < 5 && 0 <= j < 5 && 0 <= r < 5
    requires g[i][j] == n && n !in drawn
    ensures Unmarked(g[r], drawn + {n}) == Unmarked(g[r], drawn) - if r == i then n else 0
  {
    if r == i {
      MarkOne(g[r], drawn, n, j);
    } else {
      assert n !in g[r] by {
        forall c | 0 <= c < 5 ensures g[r][c] != n { }
      }
      MarkNone(g[r], drawn, n);
    }
  }

  /** The same for the columns. */
  lemma ColStep(g: seq<seq<int>>, drawn: set<int>, n: int, i: int, j: int, c: int)
    requires Board(g) && 0 <= i < 5 && 0 <= j < 5 && 0 <= c < 5
    requires g[i][j] == n && n !in drawn
    ensures Unmarked(Column(g, c), drawn + {n}) == Unmarked(Column(g, c), drawn) - if c == j then n else 0
  {
    var s := Column(g, c);
    if c == j {
      MarkOne(s, drawn, n, i);
    } else {
      assert n !in s by {
        forall r | 0 <= r < 5 ensures s[r] != n { }
      }
      MarkNone(s, drawn, n);
    }
  }

  /** A number off the board changes no sum. */
  lemma OffStep(g: seq<seq<int>>, drawn: set<int>, n: int, k: int)
    requires Grid(g) && 0 <= k < 5
    requires forall r, c :: 0 <= r < 5 && 0 <= c < 5 ==> g[r][c] != n
    ensures Unmarked(g[k], drawn + {n}) == Unmarked(g[k], drawn)
    ensures Unmarked(Column(g, k), drawn + {n}) == Unmarked(Column(g, k), drawn)
  {
    var s := Column(g, k);
    assert n !in g[k] by {
      forall c | 0 <= c < 5 ensures g[k][c] != n { }
    }
    assert n !in s by {
      forall r | 0 <= r < 5 ensures s[r] != n { }
    }
    MarkNone(g[k], drawn, n);
    MarkNone(s, drawn, n);
  }

  /** Biff keeps the card in step with the grid: drawing a number not drawn
      before, the card afterwards is the card of the grid with that number
      drawn too. */
  lemma BiffTracks(ca: Card, g: seq<seq<int>>, drawn: set<int>, n: int)
    requires Tracks(ca, g, drawn) && n !in drawn
    ensures Tracks(Biff(ca, n).0, g, drawn + {n})
  {
    var res := Biff(ca, n).0;
    assert Sums(res.row, res.col, g, drawn + {n}) by {
      BiffSums(ca, g, drawn, n);
    }
  }

  lemma BiffSums(ca: Card, g: seq<seq<int>>, drawn: set<int>, n: int)
    requires Tracks(ca, g, drawn) && n !in drawn
    ensures Sums(Biff(ca, n).0.row, Biff(ca, n).0.col, g, drawn + {n})
  {
    var res := Biff(ca, n).0;
    if n in ca.val {
      var rc := ca.val[n];
      assert g[rc.r][rc.c] == n;
      PlacedBoard(ca, g);
      HitRows(ca.row, res.row, g, drawn, n, rc.r, rc.c);
      HitCols(ca.col, res.col, g, drawn, n, rc.r, rc.c);
    } else {
      assert forall r, c :: 0 <= r < 5 && 0 <= c < 5 ==> g[r][c] != n;
      forall k | 0 <= k < 5
        ensures ca.row[k] == Unmarked(g[k], drawn + {n})
        ensures ca.col[k] == Unmarked(Column(g, k), drawn + {n})
      {
        OffStep(g, drawn, n, k);
      }
    }
  }

  lemma HitRows(row: seq<int>, row': seq<int>, g: seq<seq<int>>, drawn: set<int>, n: int, i: int, j: int)
    requires Board(g) && 0 <= i < 5 && 0 <= j < 5 && g[i][j] == n && n !in drawn
    requires |row| == 5 && forall r :: 0 <= r < 5 ==> row[r] == Unmarked(g[r], drawn)
    requires row' == row[i := row[i] - n]
    ensures forall r :: 0 <= r < 5 ==> row'[r] == Unmarked(g[r], drawn + {n})
  {
    forall r | 0 <= r < 5
      ensures row'[r] == Unmarked(g[r], drawn + {n})
    {
      RowStep(g, drawn, n, i, j, r);
    }
  }

  lemma HitCols(col: seq<int>, col': seq<int>, g: seq<seq<int>>, drawn: set<int>, n: int, i: int, j: int)
    requires Board(g) && 0 <= i < 5 && 0 <= j < 5 && g[i][j] == n && n !in drawn
    requires |col| == 5 && forall c :: 0 <= c < 5 ==> col[c] == Unmarked(Column(g, c), drawn)
    requires col' == col[j := col[j] - n]
    ensures forall c :: 0 <= c < 5 ==> col'[c] == Unmarked(Column(g, c), drawn + {n})
  {
    forall c | 0 <= c < 5
      ensures col'[c] == Unmarked(Column(g, c), drawn + {n})
    {
      ColStep(g, drawn, n, i, j, c);
    }
  }

  lemma SumFive(s: seq<int>)
    requires |s| == 5
    ensures SumSeq(s) == s[0] + s[1] + s[2] + s[3] + s[4]
  {
    SumLast(s[..1]);
    SumLast(s[..2]);
    SumLast(s[..3]);
    SumLast(s[..4]);
    SumLast(s);
    assert s[..1][..0] == [];
    assert s[..2][..1] == s[..1];
    assert s[..3][..2] == s[..2];
    assert s[..4][..3] == s[..3];
  }

  lemma SumLast(s: seq<int>)
    requires s != []
    ensures SumSeq(s) == SumSeq(s[..|s| - 1]) + s[|s| - 1]
  {
  }

  /** The score sum reports: the sum of the grid's numbers not drawn. */
  lemma SumTracks(ca: Card, g: seq<seq<int>>, drawn: set<int>)
    requires Tracks(ca, g, drawn)
    ensures Sum(ca) == Unmarked(g[0], drawn) + Unmarked(g[1], drawn) +
      Unmarked(g[2], drawn) + Unmarked(g[3], drawn) + Unmarked(g[4], drawn)
  {
    SumFive(ca.row);
  }

  /** A row or column whose numbers not drawn sum to 0. */
  predicate Cleared(s: seq<int>, drawn: set<int>) {
    Unmarked(s, drawn) == 0
  }

  /** biff's verdict as written: a drawn number wins when its row's or its
      column's numbers not yet drawn sum to 0. */
  lemma BiffWins(ca: Card, g: seq<seq<int>>, drawn: set<int>, n: int)
    requires Tracks(ca, g, drawn) && n !in drawn
    ensures Biff(ca, n).1 <==> (n in ca.val &&
      (Cleared(g[ca.val[n].r], drawn + {n}) || Cleared(Column(g, ca.val[n].c), drawn + {n})))
  {
    BiffTracks(ca, g, drawn, n);
    if n in ca.val {
      var res := Biff(ca, n).0;
      var rc := ca.val[n];
      ZeroProduct(res.row[rc.r], res.col[rc.c]);
    }
  }

  lemma ZeroProduct(a: int, b: int)
    ensures a * b == 0 <==> a == 0 || b == 0
  {
  }

  /** ... which is not "every number of the row drawn" when the row holds a
      0: after 1, 2, 3, 4 the row 0 1 2 3 4 sums to 0, and biff(4) wins
      while 0 has not been drawn. */
  lemma BiffEarlyWin()
    ensures var g := [[0, 1, 2, 3, 4], [5, 6, 7, 8, 9], [10, 11, 12, 13, 14],
                      [15, 16, 17, 18, 19], [20, 21, 22, 23, 24]];
      Cleared(g[0], {1, 2, 3, 4}) && 0 !in {1, 2, 3, 4}
  {
    var g0, d := [0, 1, 2, 3, 4], {1, 2, 3, 4};
    assert g0[..1][..0] == [];
    assert Unmarked(g0[..1], d) == 0;
    assert g0[..2][..1] == g0[..1];
    assert Unmarked(g0[..2], d) == 0;
    assert g0[..3][..2] == g0[..2];
    assert Unmarked(g0[..3], d) == 0;
    assert g0[..4][..3] == g0[..3];
    assert Unmarked(g0[..4], d) == 0;
    assert g0[..4] == g0[..|g0| - 1];
  }

  /** How many numbers of s are drawn. */
  function Hits(s: seq<int>, drawn: set<int>): (k: nat)
    ensures k <= |s|
  {
    if s == [] then 0 else Hits(s[..|s| - 1], drawn) + (if s[|s| - 1] in drawn then 1 else 0)
  }

  /** All of s is drawn exactly when every number counts. */
  lemma {:induction false} HitsAll(s: seq<int>, drawn: set<int>)
    ensures Hits(s, drawn) == |s| <==> forall i :: 0 <= i < |s| ==> s[i] in drawn
    decreases |s|
  {
    if s != [] {
      var k := |s| - 1;
      HitsAll(s[..k], drawn);
      if Hits(s, drawn) == |s| {
        assert forall i :: 0 <= i < k ==> s[..k][i] in drawn;
      }
    }
  }

  /** Drawing n, once in s at i, counts one more hit; elsewhere none. */
  lemma {:induction false} HitOne(s: seq<int>, drawn: set<int>, n: int, i: int)
    requires 0 <= i < |s| && s[i] == n && n !in drawn
    requires forall j :: 0 <= j < |s| && j != i ==> s[j] != n
    ensures Hits(s, drawn + {n}) == Hits(s, drawn) + 1
    decreases |s|
  {
    var k := |s| - 1;
    if i < k {
      HitOne(s[..k], drawn, n, i);
    } else {
      assert n !in s[..k];
      HitNone(s[..k], drawn, n);
    }
  }

  lemma {:induction false} HitNone(s: seq<int>, drawn: set<int>, n: int)
    requires n !in s
    ensures Hits(s, drawn + {n}) == Hits(s, drawn)
    decreases |s|
  {
    if s != [] {
      HitNone(s[..|s| - 1], drawn, n);
    }
  }

  /** The corrected card: beside the sums, a count of the numbers drawn in
      each row and column. */
  datatype Tally = Tally(card: Card, rowHits: seq<nat>, colHits: seq<nat>)

  predicate TallyShaped(t: Tally) {
    Shaped(t.card) && |t.rowHits| == 5 && |t.colHits| == 5
  }

  /** biff counting hits: the card wins when the number's row or column
      has all five numbers drawn. */
  function BiffFixed(t: Tally, n: int): (res: (Tally, bool))
    requires TallyShaped(t)
    ensures TallyShaped(res.0) && res.0.card == Biff(t.card, n).0
    ensures n !in t.card.val ==> res == (t, false)
  {
    var (card, _) := Biff(t.card, n);
    if n in t.card.val then
      var rc := t.card.val[n];
      var rows := t.rowHits[rc.r := t.rowHits[rc.r] + 1];
      var cols := t.colHits[rc.c := t.colHits[rc.c] + 1];
      (Tally(card, rows, cols), rows[rc.r] == 5 || cols[rc.c] == 5)
    else (t, false)
  }

  /** The corrected card of grid g after the numbers drawn. */
  predicate TallyTracks(t: Tally, g: seq<seq<int>>, drawn: set<int>) {
    TallyShaped(t) && Tracks(t.card, g, drawn) && Counted(t.rowHits, t.colHits, g, drawn)
  }

  /** Each count is the number of its row's or column's numbers drawn. */
  predicate Counted(rows: seq<nat>, cols: seq<nat>, g: seq<seq<int>>, drawn: set<int>)
    requires Grid(g) && |rows| == 5 && |cols| == 5
  {
    (forall r :: 0 <= r < 5 ==> rows[r] == Hits(g[r], drawn)) &&
    (forall c :: 0 <= c < 5 ==> cols[c] == Hits(Column(g, c), drawn))
  }

  /** Drawing n, at row i and column j of the board, counts one more hit
      in row i and column j and none elsewhere. */
  lemma HitStep(g: seq<seq<int>>, drawn: set<int>, n: int, i: int, j: int, k: int)
    requires Board(g) && 0 <= i < 5 && 0 <= j < 5 && 0 <= k < 5
    requires g[i][j] == n && n !in drawn
    ensures Hits(g[k], drawn + {n}) == Hits(g[k], drawn) + if k == i then 1 else 0
    ensures Hits(Column(g, k), drawn + {n}) == Hits(Column(g, k), drawn) + if k == j then 1 else 0
  {
    var s := Column(g, k);
    if k == i {
      HitOne(g[k], drawn, n, j);
    } else {
      assert n !in g[k] by {
        forall c | 0 <= c < 5 ensures g[k][c] != n { }
      }
      HitNone(g[k], drawn, n);
    }
    if k == j {
      HitOne(s, drawn, n, i);
    } else {
      assert n !in s by {
        forall r | 0 <= r < 5 ensures s[r] != n { }
      }
      HitNone(s, drawn, n);
    }
  }

  /** A number off the board counts no hit. */
  lemma HitOff(g: seq<seq<int>>, drawn: set<int>, n: int, k: int)
    requires Grid(g) && 0 <= k < 5
    requires forall r, c :: 0 <= r < 5 && 0 <= c < 5 ==> g[r][c] != n
    ensures Hits(g[k], drawn + {n}) == Hits(g[k], drawn)
    ensures Hits(Column(g, k), drawn + {n}) == Hits(Column(g, k), drawn)
  {
    var s := Column(g, k);
    assert n !in g[k] by {
      forall c | 0 <= c < 5 ensures g[k][c] != n { }
    }
    assert n !in s by {
      forall r | 0 <= r < 5 ensures s[r] != n { }
    }
    HitNone(g[k], drawn, n);
    HitNone(s, drawn, n);
  }

  /** The corrected biff keeps the counts in step with the grid. */
  lemma BiffFixedTracks(t: Tally, g: seq<seq<int>>, drawn: set<int>, n: int)
    requires TallyTracks(t, g, drawn) && n !in drawn
    ensures TallyTracks(BiffFixed(t, n).0, g, drawn + {n})
  {
    var res := BiffFixed(t, n).0;
    assert Tracks(res.card, g, drawn + {n}) by {
      BiffTracks(t.card, g, drawn, n);
    }
    assert Counted(res.rowHits, res.colHits, g, drawn + {n}) by {
      BiffCounts(t, g, drawn, n);
    }
  }

  lemma BiffCounts(t: Tally, g: seq<seq<int>>, drawn: set<int>, n: int)
    requires TallyTracks(t, g, drawn) && n !in drawn
    ensures Counted(BiffFixed(t, n).0.rowHits, BiffFixed(t, n).0.colHits, g, drawn + {n})
  {
    if n in t.card.val {
      var rc := t.card.val[n];
      assert Board(g) && g[rc.r][rc.c] == n by {
        PlacedBoard(t.card, g);
      }
      CountsOn(t.rowHits, t.colHits, g, drawn, n, rc.r, rc.c);
    } else {
      assert forall r, c :: 0 <= r < 5 && 0 <= c < 5 ==> g[r][c] != n;
      CountsOff(t.rowHits, t.colHits, g, drawn, n);
    }
  }

  lemma CountsOn(rows: seq<nat>, cols: seq<nat>, g: seq<seq<int>>, drawn: set<int>, n: int, i: int, j: int)
    requires Board(g) && 0 <= i < 5 && 0 <= j < 5 && g[i][j] == n && n !in drawn
    requires |rows| == 5 && |cols| == 5 && Counted(rows, cols, g, drawn)
    ensures Counted(rows[i := rows[i] + 1], cols[j := cols[j] + 1], g, drawn + {n})
  {
    var rows', cols' := rows[i := rows[i] + 1], cols[j := cols[j] + 1];
    assert forall k :: 0 <= k < 5 ==> rows'[k] == Hits(g[k], drawn + {n}) by {
      forall k | 0 <= k < 5
        ensures rows'[k] == Hits(g[k], drawn + {n})
      {
        HitStep(g, drawn, n, i, j, k);
      }
    }
    assert forall k :: 0 <= k < 5 ==> cols'[k] == Hits(Column(g, k), drawn + {n}) by {
      forall k | 0 <= k < 5
        ensures cols'[k] == Hits(Column(g, k), drawn + {n})
      {
        HitStep(g, drawn, n, i, j, k);
      }
    }
  }

  lemma CountsOff(rows: seq<nat>, cols: seq<nat>, g: seq<seq<int>>, drawn: set<int>, n: int)
    requires Grid(g) && forall r, c :: 0 <= r < 5 && 0 <= c < 5 ==> g[r][c] != n
    requires |rows| == 5 && |cols| == 5 && Counted(rows, cols, g, drawn)
    ensures Counted(rows, cols, g, drawn + {n})
  {
    forall k | 0 <= k < 5
      ensures rows[k] == Hits(g[k], drawn + {n})
      ensures cols[k] == Hits(Column(g, k), drawn + {n})
    {
      HitOff(g, drawn, n, k);
    }
  }

  /** The corrected biff wins exactly when the number is on the card and
      completes its row or its column. */
  lemma BiffFixedWins(t: Tally, g: seq<seq<int>>, drawn: set<int>, n: int)
    requires TallyTracks(t, g, drawn) && n !in drawn
    ensures BiffFixed(t, n).1 <==> (n in t.card.val &&
      ((forall c :: 0 <= c < 5 ==> g[t.card.val[n].r][c] in drawn + {n}) ||
       (forall r :: 0 <= r < 5 ==> g[r][t.card.val[n].c] in drawn + {n})))
  {
    BiffFixedTracks(t, g, drawn, n);
    if n in t.card.val {
      var rc := t.card.val[n];
      HitsAll(g[rc.r], drawn + {n});
      HitsAll(Column(g, rc.c), drawn + {n});
    }
  }
}
