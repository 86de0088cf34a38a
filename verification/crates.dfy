/** Supply Stacks (2022/5/aoc5.go): crates on numbered stacks, the top of a
    stack at the end of its sequence. Part 1 moves crates one at a time, so
    a move of n reverses them (pop); part 2 moves them together (cut). Both
    worlds are driven by the same moves. */
module Crates {
  /** A stack of crates, bottom first. */
  type Stack = seq<char>

  type World = seq<Stack>

  /** The reference reversal. */
  function Rev(x: Stack): (r: Stack)
    ensures |r| == |x|
  {
    if x == [] then [] else Rev(x[1..]) + [x[0]]
  }

  /** Rev mirrors the positions. */
  lemma {:induction false} RevAt(x: Stack)
    ensures forall i :: 0 <= i < |x| ==> Rev(x)[i] == x[|x| - 1 - i]
    decreases |x|
  {
    if x != [] {
      RevAt(x[1..]);
    }
  }

  lemma RevRev(x: Stack)
    ensures Rev(Rev(x)) == x
  {
    RevAt(x);
    RevAt(Rev(x));
  }

  /** cut: the top n crates of stack s, in their order, and the world
      without them. */
  function Cut(w: World, s: nat, n: nat): (res: (World, Stack))
    requires s < |w| && n <= |w[s]|
    ensures |res.1| == n && |res.0| == |w|
    ensures res.0[s] + res.1 == w[s]
  {
    var i := |w[s]|;
    (w[s := w[s][..i - n]], w[s][i - n..])
  }

  /** The two-index swap loop of pop. */
  method Reverse(x: Stack) returns (r: Stack)
    ensures r == Rev(x)
  {
    r := x;
    var l, h := 0, |x| - 1;
    while l < h
      invariant 0 <= l && h == |x| - 1 - l && |r| == |x|
      invariant forall k :: 0 <= k < |x| && (k < l || h < k) ==> r[k] == x[|x| - 1 - k]
      invariant forall k :: l <= k <= h ==> r[k] == x[k]
    {
      r := r[l := r[h]][h := r[l]];
      l := l + 1;
      h := h - 1;
    }
    RevAt(x);
  }

  /** pop: the top n crates as part 1 lifts them, one at a time, so the
      topmost comes first. */
  function Pop(w: World, s: nat, n: nat): (res: (World, Stack))
    requires s < |w| && n <= |w[s]|
    ensures res.0 == Cut(w, s, n).0 && Rev(res.1) == Cut(w, s, n).1
  {
    RevRev(Cut(w, s, n).1);
    (Cut(w, s, n).0, Rev(Cut(w, s, n).1))
  }

  /** push: x goes on top of stack d. */
  function Push(w: World, d: nat, x: Stack): (r: World)
    requires d < |w|
    ensures |r| == |w| && r[d] == w[d] + x
  {
    w[d := w[d] + x]
  }

  /** top: the last crate of a non-empty stack. */
  function Top(w: World, s: nat): char
    requires s < |w| && |w[s]| > 0
  {
    w[s][|w[s]| - 1]
  }

  /** Pushing back what was cut restores the world. */
  lemma PushCut(w: World, s: nat, n: nat)
    requires s < |w| && n <= |w[s]|
    ensures Push(Cut(w, s, n).0, s, Cut(w, s, n).1) == w
  {
  }

  /** The top after a push is the last crate pushed. */
  lemma TopPush(w: World, d: nat, x: Stack)
    requires d < |w| && |x| > 0
    ensures Top(Push(w, d, x), d) == x[|x| - 1]
  {
  }

  /** The reference for part 1: n moves of a single crate. */
  function OneByOne(w: World, d: nat, s: nat, n: nat): World
    requires d < |w| && s < |w| && n <= |w[s]|
    decreases n
  {
    if n == 0 then w
    else
      var (v, x) := Cut(w, s, 1);
      assert |v[s]| == |w[s]| - 1;
      OneByOne(Push(v, d, x), d, s, n - 1)
  }

  /** The world after the top crate of s moves to d. */
  function Lift(w: World, d: nat, s: nat): World
    requires d < |w| && s < |w| && d != s && |w[s]| > 0
  {
    var i := |w[s]|;
    w[s := w[s][..i - 1]][d := w[d] + [w[s][i - 1]]]
  }

  lemma OneStep(w: World, d: nat, s: nat, n: nat)
    requires d < |w| && s < |w| && d != s && 0 < n <= |w[s]|
    ensures OneByOne(w, d, s, n) == OneByOne(Lift(w, d, s), d, s, n - 1)
  {
    var i := |w[s]|;
    assert w[s][i - 1..] == [w[s][i - 1]];
  }

  lemma RevLast(top: Stack)
    requires |top| > 0
    ensures Rev(top) == [top[|top| - 1]] + Rev(top[..|top| - 1])
  {
    var k := |top| - 1;
    assert top == top[..k] + [top[k]];
    RevAppend(top[..k], [top[k]]);
    assert Rev([top[k]]) == [top[k]] by {
      assert [top[k]][1..] == [];
    }
  }

  lemma CutLift(w: World, d: nat, s: nat, n: nat)
    requires d < |w| && s < |w| && d != s && 0 < n <= |w[s]|
    ensures var i := |w[s]|; var u := Lift(w, d, s);
      Cut(u, s, n - 1) == (u[s := w[s][..i - n]], w[s][i - n..i - 1])
  {
    var i := |w[s]|;
    var u := Lift(w, d, s);
    assert u[s] == w[s][..i - 1];
    assert u[s][..i - 1 - (n - 1)] == w[s][..i - n];
    assert u[s][i - 1 - (n - 1)..] == w[s][i - n..i - 1];
  }

  /** Popping n crates is lifting the top one and popping the n - 1 below. */
  lemma PopLift(w: World, d: nat, s: nat, n: nat)
    requires d < |w| && s < |w| && d != s && 0 < n <= |w[s]|
    ensures var u := Lift(w, d, s);
      Push(Pop(u, s, n - 1).0, d, Pop(u, s, n - 1).1) == Push(Pop(w, s, n).0, d, Pop(w, s, n).1)
  {
    var i := |w[s]|;
    var top, rest := w[s][i - n..], w[s][..i - n];
    var u := Lift(w, d, s);
    CutLift(w, d, s, n);
    RevLast(top);
    assert top[..n - 1] == w[s][i - n..i - 1];
    assert u[s := rest] == w[s := rest][d := w[d] + [w[s][i - 1]]];
    assert u[d] + Rev(top[..n - 1]) == w[d] + Rev(top);
  }

  /** Moving n crates one at a time between different stacks is popping
      them and pushing the result. */
  lemma {:induction false} OneByOnePop(w: World, d: nat, s: nat, n: nat)
    requires d < |w| && s < |w| && d != s && n <= |w[s]|
    ensures OneByOne(w, d, s, n) == Push(Pop(w, s, n).0, d, Pop(w, s, n).1)
    decreases n
  {
    if n > 0 {
      OneStep(w, d, s, n);
      OneByOnePop(Lift(w, d, s), d, s, n - 1);
      PopLift(w, d, s, n);
    } else {
      assert w[s][..|w[s]|] == w[s] && w[d] + [] == w[d];
    }
  }

  lemma RevAppend(a: Stack, b: Stack)
    ensures Rev(a + b) == Rev(b) + Rev(a)
  {
    RevAt(a + b);
    RevAt(a);
    RevAt(b);
  }

  /** The crates in a world. */
  function Crates(w: World): nat {
    if w == [] then 0 else |w[|w| - 1]| + Crates(w[..|w| - 1])
  }

  lemma {:induction false} CratesUpdate(w: World, k: nat, st: Stack)
    requires k < |w|
    ensures Crates(w[k := st]) == Crates(w) - |w[k]| + |st|
    decreases |w|
  {
    var v := w[k := st];
    if k < |w| - 1 {
      assert v[..|v| - 1] == w[..|w| - 1][k := st];
      CratesUpdate(w[..|w| - 1], k, st);
    } else {
      assert v[..|v| - 1] == w[..|w| - 1];
    }
  }

  /** The two worlds, part 1 and part 2. */
  datatype Worlds = Worlds(part1: World, part2: World)

  /** move: n crates from stack s to stack d, lifted one at a time in the
      part 1 world and together in the part 2 world. */
  function Move(ws: Worlds, d: nat, s: nat, n: nat): (r: Worlds)
    requires d < |ws.part1| && s < |ws.part1| && n <= |ws.part1[s]|
    requires d < |ws.part2| && s < |ws.part2| && n <= |ws.part2[s]|
    ensures |r.part1| == |ws.part1| && |r.part2| == |ws.part2|
  {
    var (v1, x1) := Pop(ws.part1, s, n);
    var (v2, x2) := Cut(ws.part2, s, n);
    Worlds(Push(v1, d, x1), Push(v2, d, x2))
  }

  /** A move neither creates nor destroys crates, in either world. */
  lemma MoveCount(ws: Worlds, d: nat, s: nat, n: nat)
    requires d < |ws.part1| && s < |ws.part1| && n <= |ws.part1[s]|
    requires d < |ws.part2| && s < |ws.part2| && n <= |ws.part2[s]|
    ensures Crates(Move(ws, d, s, n).part1) == Crates(ws.part1)
    ensures Crates(Move(ws, d, s, n).part2) == Crates(ws.part2)
  {
    var (v1, x1) := Pop(ws.part1, s, n);
    var (v2, x2) := Cut(ws.part2, s, n);
    CratesUpdate(ws.part1, s, v1[s]);
    CratesUpdate(v1, d, v1[d] + x1);
    CratesUpdate(ws.part2, s, v2[s]);
    CratesUpdate(v2, d, v2[d] + x2);
  }

  /** Worlds that agree stay in agreement under single-crate moves: the two
      cranes differ only on several crates at once. */
  lemma MoveOne(ws: Worlds, d: nat, s: nat)
    requires ws.part1 == ws.part2
    requires d < |ws.part1| && s < |ws.part1| && 1 <= |ws.part1[s]|
    ensures Move(ws, d, s, 1).part1 == Move(ws, d, s, 1).part2
  {
    var x := Cut(ws.part1, s, 1).1;
    RevAt(x);
    assert Rev(x) == x;
  }

  /** String: the top crates of the non-empty stacks, in stack order. */
  function Tops(w: World): (r: seq<char>)
    ensures |r| <= |w|
  {
    if w == [] then []
    else
      var k := |w| - 1;
      Tops(w[..k]) + (if |w[k]| > 0 then [Top(w, k)] else [])
  }

  function NonEmpty(w: World): nat {
    if w == [] then 0 else NonEmpty(w[..|w| - 1]) + (if |w[|w| - 1]| > 0 then 1 else 0)
  }

  /** One top per non-empty stack, each the last crate of some stack. */
  lemma {:induction false} TopsCount(w: World)
    ensures |Tops(w)| == NonEmpty(w)
    ensures forall i :: 0 <= i < |Tops(w)| ==>
      exists k :: 0 <= k < |w| && |w[k]| > 0 && Tops(w)[i] == w[k][|w[k]| - 1]
    decreases |w|
  {
    if w != [] {
      var k := |w| - 1;
      TopsCount(w[..k]);
      var t := Tops(w[..k]);
      forall i | 0 <= i < |Tops(w)|
        ensures exists j :: 0 <= j < |w| && |w[j]| > 0 && Tops(w)[i] == w[j][|w[j]| - 1]
      {
        if i < |t| {
          var j :| 0 <= j < k && |w[..k][j]| > 0 && t[i] == w[..k][j][|w[..k][j]| - 1];
          assert w[j] == w[..k][j];
        } else {
          assert Tops(w)[i] == w[k][|w[k]| - 1];
        }
      }
    }
  }
}
