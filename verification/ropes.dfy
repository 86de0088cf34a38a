/** Rope Bridge (2022/9/aoc9.go): a rope of ten knots on the plane. Every
    unit move of the head pulls each following knot, in order, towards the
    one before it when they no longer touch; the answers count the cells
    the second and the last knot visit. */
module Ropes {
  /** XY: a point or a vector of the plane. */
  datatype XY = XY(x: int, y: int)

  function Minus(a: XY, b: XY): XY {
    XY(a.x - b.x, a.y - b.y)
  }

  /** add: sub takes the same vector off again, and the origin adds
      nothing. */
  function Plus(a: XY, b: XY): (r: XY)
    ensures Minus(r, b) == a
    ensures b == XY(0, 0) ==> r == a
  {
    XY(a.x + b.x, a.y + b.y)
  }

  function Abs(v: int): nat {
    if v < 0 then -v else v
  }

  /** The chessboard length of a vector: points touch when the vector
      between them has length at most 1. */
  function Cheb(a: XY): nat {
    if Abs(a.x) < Abs(a.y) then Abs(a.y) else Abs(a.x)
  }

  /** The sign of one component, as dir's switch computes it. */
  function Sign(v: int): (s: int)
    ensures -1 <= s <= 1 && s * v == Abs(v) && (s == 0 <==> v == 0)
  {
    if v < 0 then -1 else if v > 0 then 1 else 0
  }

  /** dir: each component of the vector reduced to its sign. */
  function Dir(a: XY): (d: XY)
    ensures d.x * a.x == Abs(a.x) && d.y * a.y == Abs(a.y)
    ensures Cheb(d) <= 1 && (d == XY(0, 0) <==> a == XY(0, 0))
  {
    XY(Sign(a.x), Sign(a.y))
  }

  /** len2: the square of the vector's length. */
  function Len2(a: XY): int {
    a.x * a.x + a.y * a.y
  }

  lemma Square(v: int)
    ensures Abs(v) >= 2 ==> v * v >= 4
    ensures Abs(v) <= 1 ==> v * v <= 1
  {
    if v >= 2 {
      assert v * v >= 2 * v;
    } else if v <= -2 {
      assert v * v >= -2 * v;
    }
  }

  /** A square length of at least 4 means the points do not touch: the
      test of main is exactly "chessboard length at least 2". */
  lemma Len2Far(a: XY)
    ensures Len2(a) >= 4 <==> Cheb(a) >= 2
  {
    Square(a.x);
    Square(a.y);
  }

  /** One knot follows the knot ahead of it: it moves one step of dir
      towards the head when the square length between them is 4 or more,
      and stays otherwise. */
  function Follow(head: XY, tail: XY): (t: XY)
    ensures Cheb(Minus(t, tail)) <= 1
    ensures t != tail <==> Cheb(Minus(head, tail)) >= 2
  {
    var vec := Minus(head, tail);
    Len2Far(vec);
    if Len2(vec) >= 4 then Plus(tail, Dir(vec)) else tail
  }

  /** A knot that touched the knot ahead of it touches it again after that
      knot makes a king's move and the knot follows. */
  lemma FollowTouch(h0: XY, h: XY, tail: XY)
    requires Cheb(Minus(h0, tail)) <= 1 && Cheb(Minus(h, h0)) <= 1
    ensures Cheb(Minus(h, Follow(h, tail))) <= 1
  {
  }

  /** Consecutive knots touch. */
  predicate Taut(k: seq<XY>) {
    forall i :: 0 <= i < |k| - 1 ==> Cheb(Minus(k[i], k[i + 1])) <= 1
  }

  /** The inner loop of main from knot i on: each later knot follows the
      one before it, which has already moved. */
  function Pull(k: seq<XY>, i: nat): (r: seq<XY>)
    requires i < |k|
    ensures |r| == |k| && r[..i + 1] == k[..i + 1]
    decreases |k| - i
  {
    if i + 1 == |k| then k
    else
      var r := Pull(k[i + 1 := Follow(k[i], k[i + 1])], i + 1);
      assert r[..i + 1] == r[..i + 2][..i + 1];
      r
  }

  /** Pulling keeps the rope taut and moves each knot by at most a king's
      move, given a rope o that was taut and whose knots up to i have each
      made at most a king's move, the ones before i already in touch. */
  lemma {:induction false} PullTaut(o: seq<XY>, k: seq<XY>, i: nat)
    requires |k| == |o| && i < |k| && Taut(o) && k[i + 1..] == o[i + 1..]
    requires forall j :: 0 <= j <= i ==> Cheb(Minus(k[j], o[j])) <= 1
    requires forall j :: 0 <= j < i ==> Cheb(Minus(k[j], k[j + 1])) <= 1
    ensures Taut(Pull(k, i))
    ensures forall j :: 0 <= j < |k| ==> Cheb(Minus(Pull(k, i)[j], o[j])) <= 1
    decreases |k| - i
  {
    if i + 1 < |k| {
      PullStep(o, k, i);
      PullTaut(o, k[i + 1 := Follow(k[i], k[i + 1])], i + 1);
    } else {
      assert forall j :: 0 <= j < |k| ==> Cheb(Minus(k[j], o[j])) <= 1;
    }
  }

  /** One knot of the pull: the rope after knot i + 1 follows knot i
      meets PullTaut's conditions at i + 1. */
  lemma PullStep(o: seq<XY>, k: seq<XY>, i: nat)
    requires |k| == |o| && i + 1 < |k| && Taut(o) && k[i + 1..] == o[i + 1..]
    requires forall j :: 0 <= j <= i ==> Cheb(Minus(k[j], o[j])) <= 1
    requires forall j :: 0 <= j < i ==> Cheb(Minus(k[j], k[j + 1])) <= 1
    ensures var k' := k[i + 1 := Follow(k[i], k[i + 1])];
      && k'[i + 2..] == o[i + 2..]
      && (forall j :: 0 <= j <= i + 1 ==> Cheb(Minus(k'[j], o[j])) <= 1)
      && (forall j :: 0 <= j < i + 1 ==> Cheb(Minus(k'[j], k'[j + 1])) <= 1)
  {
    assert k[i + 1] == o[i + 1] by {
      assert k[i + 1] == k[i + 1..][0];
    }
    var t := Follow(k[i], k[i + 1]);
    assert Cheb(Minus(k[i], t)) <= 1 && Cheb(Minus(t, o[i + 1])) <= 1 by {
      FollowTouch(o[i], k[i], o[i + 1]);
    }
    var k' := k[i + 1 := t];
    assert k'[i + 2..] == o[i + 2..] by {
      assert k[i + 2..] == k[i + 1..][1..];
      assert o[i + 2..] == o[i + 1..][1..];
    }
  }

  /** One unit move of the head by off, then the pull of the knots. */
  function Step(k: seq<XY>, off: XY): (r: seq<XY>)
    requires |k| > 0
    ensures |r| == |k| && r[0] == Plus(k[0], off)
  {
    var r := Pull(k[0 := Plus(k[0], off)], 0);
    assert r[0] == r[..1][0];
    r
  }

  /** A king's move of the head keeps a taut rope taut, and no knot moves
      further than a king's move. */
  lemma StepTaut(k: seq<XY>, off: XY)
    requires |k| > 0 && Taut(k) && Cheb(off) <= 1
    ensures Taut(Step(k, off))
    ensures forall j :: 0 <= j < |k| ==> Cheb(Minus(Step(k, off)[j], k[j])) <= 1
  {
    var k' := k[0 := Plus(k[0], off)];
    assert k'[1..] == k[1..];
    PullTaut(k, k', 0);
  }

  /** off[θ]: the unit move of a heading byte; any other byte does not
      move the head. */
  function Offset(c: char): (d: XY)
    ensures Cheb(d) <= 1
  {
    if c == 'U' then XY(0, 1)
    else if c == 'L' then XY(-1, 0)
    else if c == 'D' then XY(0, -1)
    else if c == 'R' then XY(1, 0)
    else XY(0, 0)
  }

  /** An input line: a heading and a number of unit moves. */
  datatype Motion = Motion(dir: char, n: nat)

  /** The unit moves the motions make, in order. */
  function Offs(ms: seq<Motion>): seq<XY> {
    if ms == [] then []
    else
      var m := ms[|ms| - 1];
      Offs(ms[..|ms| - 1]) + Rep(Offset(m.dir), m.n)
  }

  /** n copies of the move off. */
  function Rep(off: XY, n: nat): (r: seq<XY>)
    ensures |r| == n && forall i :: 0 <= i < n ==> r[i] == off
  {
    if n == 0 then [] else Rep(off, n - 1) + [off]
  }

  /** The rope after the unit moves offs. */
  function Final(k: seq<XY>, offs: seq<XY>): (r: seq<XY>)
    requires |k| > 0
    ensures |r| == |k|
  {
    if offs == [] then k else Step(Final(k, offs[..|offs| - 1]), offs[|offs| - 1])
  }

  /** The rope after each of the unit moves offs. */
  function Trail(k: seq<XY>, offs: seq<XY>): (t: seq<seq<XY>>)
    requires |k| > 0
    ensures |t| == |offs| && forall i :: 0 <= i < |t| ==> |t[i]| == |k|
  {
    if offs == [] then []
    else
      var n := |offs| - 1;
      Trail(k, offs[..n]) + [Final(k, offs)]
  }

  /** Every rope of the trail of a taut rope moved by king's moves is taut. */
  lemma {:induction false} TrailTaut(k: seq<XY>, offs: seq<XY>)
    requires |k| > 0 && Taut(k) && forall i :: 0 <= i < |offs| ==> Cheb(offs[i]) <= 1
    ensures Taut(Final(k, offs)) && forall i :: 0 <= i < |offs| ==> Taut(Trail(k, offs)[i])
    decreases |offs|
  {
    if offs != [] {
      var n := |offs| - 1;
      TrailTaut(k, offs[..n]);
      StepTaut(Final(k, offs[..n]), offs[n]);
    }
  }

  /** The cells knot j occupies: at the start and after every unit move. */
  function Visited(start: seq<XY>, t: seq<seq<XY>>, j: nat): set<XY>
    requires j < |start| && forall i :: 0 <= i < |t| ==> j < |t[i]|
  {
    {start[j]} + set i | 0 <= i < |t| :: t[i][j]
  }

  /** set.add as written: the point is hashed into a flat array of
      MAXN * MAXN / 2 cells, with row stride MAXN / 2, and the count grows
      when the cell was clear. */
  const MaxN: int := 512

  function Hash(p: XY): int {
    var m := MaxN / 2;
    m * (p.x + m + 1) + p.y
  }

  /** The marked cells and the count. */
  datatype Grid = Grid(data: set<int>, count: nat)

  function GridAdd(s: Grid, p: XY): (r: Grid)
    requires 0 <= Hash(p) < MaxN * MaxN / 2
    ensures Hash(p) in r.data && r.data == s.data + {Hash(p)}
    ensures r.count == s.count + (if Hash(p) in s.data then 0 else 1)
  {
    if Hash(p) !in s.data then Grid(s.data + {Hash(p)}, s.count + 1) else s
  }

  /** The count is the number of distinct cells marked. */
  lemma GridCounts(s: Grid, p: XY)
    requires 0 <= Hash(p) < MaxN * MaxN / 2 && s.count == |s.data|
    ensures GridAdd(s, p).count == |GridAdd(s, p).data|
  {
  }

  /** ... which is not the number of points: (0, 0) and (1, -256) share a
      cell, both inside the array, so adding both counts one. */
  lemma GridCollision()
    ensures var s := GridAdd(GridAdd(Grid({}, 0), XY(0, 0)), XY(1, -256));
      s.count == 1 && |{XY(0, 0), XY(1, -256)}| == 2
  {
    assert Hash(XY(0, 0)) == Hash(XY(1, -256)) == 65792;
    assert XY(0, 0) != XY(1, -256);
  }

  /** set.add on a set of points: the count grows exactly when the point is
      new. */
  function Visit(s: set<XY>, p: XY): (r: set<XY>)
    ensures p in r && s <= r && r - {p} <= s
    ensures |r| == |s| + (if p in s then 0 else 1)
  {
    if p in s then s else s + {p}
  }

  /** The rope of main: ten knots at the origin. */
  function Start(): (k: seq<XY>)
    ensures |k| == 10 && Taut(k)
  {
    seq(10, _ => XY(0, 0))
  }

  /** The knots and the two sets of visited cells after the unit moves
      done. */
  ghost predicate Recorded(done: seq<XY>, knots: seq<XY>, v1: set<XY>, v2: set<XY>) {
    knots == Final(Start(), done) &&
    v1 == Visited(Start(), Trail(Start(), done), 1) &&
    v2 == Visited(Start(), Trail(Start(), done), 9)
  }

  /** The inner loop of main: n unit moves by off, each recorded. */
  method Repeat(knots: seq<XY>, v1: set<XY>, v2: set<XY>, ghost done: seq<XY>, off: XY, n: nat)
    returns (knots': seq<XY>, v1': set<XY>, v2': set<XY>)
    requires Recorded(done, knots, v1, v2)
    ensures Recorded(done + Rep(off, n), knots', v1', v2')
  {
    knots', v1', v2' := knots, v1, v2;
    ghost var cur := done;
    assert done + Rep(off, 0) == done;
    for j := 0 to n
      invariant cur == done + Rep(off, j)
      invariant Recorded(cur, knots', v1', v2')
    {
      RecordedStep(cur, knots', v1', v2', off);
      knots' := Step(knots', off);
      v1' := Visit(v1', knots'[1]);
      v2' := Visit(v2', knots'[9]);
      Repeated(done, off, j);
      cur := cur + [off];
    }
  }

  lemma Repeated(done: seq<XY>, off: XY, j: nat)
    ensures done + Rep(off, j) + [off] == done + Rep(off, j + 1)
  {
    assert done + Rep(off, j) + [off] == done + (Rep(off, j) + [off]);
  }

  /** Recording one more unit move. */
  lemma RecordedStep(done: seq<XY>, knots: seq<XY>, v1: set<XY>, v2: set<XY>, off: XY)
    requires Recorded(done, knots, v1, v2)
    ensures var k := Step(knots, off);
      Recorded(done + [off], k, Visit(v1, k[1]), Visit(v2, k[9]))
  {
    var k := Step(knots, off);
    VisitedStep(Start(), done, off);
    assert Visit(v1, k[1]) == v1 + {k[1]};
    assert Visit(v2, k[9]) == v2 + {k[9]};
  }

  /** main: every unit move of every motion steps the rope and records the
      second and the last knot; the answers are the numbers of cells they
      visited. */
  method Run(ms: seq<Motion>) returns (part1: nat, part2: nat)
    ensures part1 == |Visited(Start(), Trail(Start(), Offs(ms)), 1)|
    ensures part2 == |Visited(Start(), Trail(Start(), Offs(ms)), 9)|
  {
    var knots := Start();
    var v1, v2 := Visit({}, knots[1]), Visit({}, knots[9]);
    for i := 0 to |ms|
      invariant Recorded(Offs(ms[..i]), knots, v1, v2)
    {
      assert ms[..i + 1][..i] == ms[..i];
      knots, v1, v2 := Repeat(knots, v1, v2, Offs(ms[..i]), Offset(ms[i].dir), ms[i].n);
    }
    assert ms[..|ms|] == ms;
    part1 := |v1|;
    part2 := |v2|;
  }

  /** One more unit move adds the new rope's knot to the cells visited. */
  lemma VisitedStep(k: seq<XY>, offs: seq<XY>, off: XY)
    requires |k| == 10
    ensures var t := offs + [off];
      Final(k, t) == Step(Final(k, offs), off) &&
      Trail(k, t) == Trail(k, offs) + [Final(k, t)] &&
      forall j :: 0 <= j < 10 ==> Visited(k, Trail(k, t), j) == Visited(k, Trail(k, offs), j) + {Final(k, t)[j]}
  {
    var t := offs + [off];
    assert t[..|t| - 1] == offs;
    var tr := Trail(k, t);
    forall j | 0 <= j < 10
      ensures Visited(k, tr, j) == Visited(k, Trail(k, offs), j) + {Final(k, t)[j]}
    {
      assert tr[|offs|] == Final(k, t);
      assert forall i :: 0 <= i < |offs| ==> tr[i] == Trail(k, offs)[i];
    }
  }
}
