/** Snailfish (2021/18/aoc18.go): a snailfish number is a binary tree kept
    flat, as its leaf values left to right with each leaf's depth. The tree
    datatype Snail is the reference: its flattening is what parsing yields,
    joining two flattenings flattens their pair, and mag computes the
    tree's magnitude. */
module Snailfish {
  import opened Wrappers

  /** snum: the leaf values and, for each, its depth less one (the leaves of
      the outermost pair sit at depth 0). */
  datatype SNum = SNum(vals: seq<int>, deps: seq<int>)

  predicate Valid(s: SNum) {
    |s.vals| == |s.deps|
  }

  /** The zero snum, which joining treats as "nothing yet". */
  function Zero(): SNum {
    SNum([], [])
  }

  /** remove: drop index i, or report that there is none. */
  function Remove(a: seq<int>, i: nat): (res: (seq<int>, bool))
    ensures res.1 <==> i < |a|
    ensures !res.1 ==> res.0 == a
    ensures res.1 ==> |res.0| == |a| - 1
  {
    if i >= |a| then (a, false) else (a[..i] + a[i + 1..], true)
  }

  /** insert: v lands at index i, the elements from i on move up one. */
  function Insert(a: seq<int>, i: nat, v: int): (r: seq<int>)
    requires i <= |a|
    ensures |r| == |a| + 1 && r[i] == v
  {
    if |a| == i then a + [v] else a[..i] + [v] + a[i..]
  }

  /** insert undoes remove, and remove undoes insert. */
  lemma InsertRemove(a: seq<int>, i: nat, v: int)
    requires i <= |a|
    ensures Remove(Insert(a, i, v), i) == (a, true)
  {
    var b := Insert(a, i, v);
    assert b[..i] == a[..i] && b[i + 1..] == a[i..];
    assert a[..i] + a[i..] == a;
  }

  lemma RemoveInsert(a: seq<int>, i: nat)
    requires i < |a|
    ensures Insert(Remove(a, i).0, i, a[i]) == a
  {
    assert a == a[..i] + [a[i]] + a[i + 1..];
  }

  function Bump(ds: seq<int>): (r: seq<int>)
    ensures |r| == |ds|
  {
    seq(|ds|, j requires 0 <= j < |ds| => ds[j] + 1)
  }

  /** SNum(a, b): the pair [a,b]. Every leaf goes one level deeper, unless
      a is the zero snum, which gives b as is. */
  function Join(a: SNum, b: SNum): (r: SNum)
    ensures a == Zero() ==> r == b
    ensures a != Zero() ==> r.vals == a.vals + b.vals && |r.deps| == |a.deps| + |b.deps|
  {
    if a == Zero() then b else SNum(a.vals + b.vals, Bump(a.deps + b.deps))
  }

  function Cat(a: SNum, b: SNum): SNum {
    SNum(a.vals + b.vals, a.deps + b.deps)
  }

  /** The reference tree. */
  datatype Snail = Leaf(v: int) | Pair(l: Snail, r: Snail)

  /** The leaves of t, left to right, with depths counted from d. */
  function Flat(t: Snail, d: int): (s: SNum)
    ensures Valid(s) && |s.vals| >= 1
  {
    match t
    case Leaf(v) => SNum([v], [d])
    case Pair(l, r) => Cat(Flat(l, d + 1), Flat(r, d + 1))
  }

  function Magnitude(t: Snail): int {
    match t
    case Leaf(v) => v
    case Pair(l, r) => 3 * Magnitude(l) + 2 * Magnitude(r)
  }

  function Size(t: Snail): nat {
    match t
    case Leaf(_) => 1
    case Pair(l, r) => Size(l) + Size(r)
  }

  lemma {:induction false} BumpFlat(t: Snail, d: int)
    ensures Bump(Flat(t, d).deps) == Flat(t, d + 1).deps
    ensures Flat(t, d).vals == Flat(t, d + 1).vals
  {
    match t
    case Leaf(_) =>
    case Pair(l, r) =>
      BumpFlat(l, d + 1);
      BumpFlat(r, d + 1);
      var x, y := Flat(l, d + 1).deps, Flat(r, d + 1).deps;
      assert Bump(x + y) == Bump(x) + Bump(y);
  }

  /** Joining two flattened trees flattens their pair. */
  lemma JoinFlat(a: Snail, b: Snail)
    ensures Join(Flat(a, -1), Flat(b, -1)) == Flat(Pair(a, b), -1)
  {
    var x, y := Flat(a, -1).deps, Flat(b, -1).deps;
    assert Bump(x + y) == Bump(x) + Bump(y);
    BumpFlat(a, -1);
    BumpFlat(b, -1);
    assert Flat(a, -1) != Zero() by {
      assert |Flat(a, -1).vals| >= 1;
    }
  }

  /** The tokens a line splits into. */
  datatype Tok = Open | Close | Num(n: int)

  function Print(t: Snail): seq<Tok> {
    match t
    case Leaf(v) => [Num(v)]
    case Pair(l, r) => [Open] + Print(l) + Print(r) + [Close]
  }

  /** SNum(tokens): '[' and ']' move the depth, a number is recorded with the
      current depth less one. */
  function Parse(toks: seq<Tok>, depth: int): (s: SNum)
    ensures Valid(s)
  {
    if toks == [] then Zero()
    else match toks[0]
      case Open => Parse(toks[1..], depth + 1)
      case Close => Parse(toks[1..], depth - 1)
      case Num(n) => Cat(SNum([n], [depth - 1]), Parse(toks[1..], depth))
  }

  lemma {:induction false} ParsePrintRest(t: Snail, rest: seq<Tok>, depth: int)
    ensures Parse(Print(t) + rest, depth) == Cat(Flat(t, depth - 1), Parse(rest, depth))
  {
    match t
    case Leaf(v) =>
      assert (Print(t) + rest)[1..] == rest;
    case Pair(l, r) =>
      var toks := Print(t) + rest;
      assert toks[1..] == Print(l) + (Print(r) + ([Close] + rest));
      ParsePrintRest(l, Print(r) + ([Close] + rest), depth + 1);
      ParsePrintRest(r, [Close] + rest, depth + 1);
      assert ([Close] + rest)[1..] == rest;
      var a, b, c := Flat(l, depth), Flat(r, depth), Parse(rest, depth);
      assert Cat(a, Cat(b, c)) == Cat(Cat(a, b), c);
  }

  /** Parsing the printed tree gives its flattening. */
  lemma ParsePrint(t: Snail)
    ensures Parse(Print(t), 0) == Flat(t, -1)
  {
    ParsePrintRest(t, [], 0);
    assert Print(t) + [] == Print(t);
  }

  /** The first index holding x, searching from k. */
  function FirstEq(ds: seq<int>, x: int, k: nat): (r: Option<nat>)
    ensures r.Some? ==> k <= r.value < |ds| && ds[r.value] == x
    ensures r.Some? ==> forall j :: k <= j < r.value ==> ds[j] != x
    ensures r.None? ==> forall j :: k <= j < |ds| ==> ds[j] != x
    decreases |ds| - k
  {
    if k >= |ds| then None else if ds[k] == x then Some(k) else FirstEq(ds, x, k + 1)
  }

  /** The first value of at least 10, searching from k. */
  function FirstBig(vs: seq<int>, k: nat): (r: Option<nat>)
    ensures r.Some? ==> k <= r.value < |vs| && vs[r.value] >= 10
    ensures r.Some? ==> forall j :: k <= j < r.value ==> vs[j] < 10
    ensures r.None? ==> forall j :: k <= j < |vs| ==> vs[j] < 10
    decreases |vs| - k
  {
    if k >= |vs| then None else if vs[k] >= 10 then Some(k) else FirstBig(vs, k + 1)
  }

  /** The first index whose depth equals the next one, searching from k. */
  function FirstTwin(ds: seq<int>, k: nat): (r: Option<nat>)
    ensures r.Some? ==> k <= r.value && r.value + 1 < |ds| && ds[r.value] == ds[r.value + 1]
    ensures r.Some? ==> forall j :: k <= j < r.value ==> ds[j] != ds[j + 1]
    ensures r.None? ==> forall j :: k <= j && j + 1 < |ds| ==> ds[j] != ds[j + 1]
    decreases |ds| - k
  {
    if k + 1 >= |ds| then None else if ds[k] == ds[k + 1] then Some(k) else FirstTwin(ds, k + 1)
  }

  /** explode: the first leaf at depth 4 gives its value to the leaf on its
      left and its right neighbour's value to the leaf after that; it becomes
      a 0 at depth 3 and the neighbour is removed. */
  function Explode(s: SNum): (res: (SNum, bool))
    requires Valid(s)
    ensures Valid(res.0)
    ensures res.1 <==> exists j :: 0 <= j < |s.deps| && s.deps[j] == 4
    ensures !res.1 ==> res.0 == s
  {
    match FirstEq(s.deps, 4, 0)
    case None => (s, false)
    case Some(i) =>
      var v3, d3 := Spread(s.vals, i), s.deps[i := 3];
      if i + 1 < |d3| then (SNum(Remove(v3, i + 1).0, Remove(d3, i + 1).0), true)
      else (SNum(v3, d3), true)
  }

  /** The values as explode leaves them before the neighbour is removed:
      v[i] added to the leaf before it, v[i + 1] to the leaf two after it,
      and v[i] set to 0. */
  function Spread(v: seq<int>, i: nat): (r: seq<int>)
    requires i < |v|
    ensures |r| == |v| && r[i] == 0
    ensures i + 1 < |v| ==> r[i + 1] == v[i + 1]
  {
    GiveRight(GiveLeft(v, i), i)[i := 0]
  }

  /** v[i] added to the leaf before i, if there is one. */
  function GiveLeft(v: seq<int>, i: nat): (r: seq<int>)
    requires i < |v|
    ensures |r| == |v| && r[i] == v[i]
    ensures i + 1 < |v| ==> r[i + 1] == v[i + 1]
  {
    if i > 0 then v[i - 1 := v[i - 1] + v[i]] else v
  }

  /** v[i + 1] added to the leaf after it, if there is one. */
  function GiveRight(v: seq<int>, i: nat): (r: seq<int>)
    requires i < |v|
    ensures |r| == |v| && r[i] == v[i]
    ensures i + 1 < |v| ==> r[i + 1] == v[i + 1]
  {
    if i + 2 < |v| then v[i + 2 := v[i + 2] + v[i + 1]] else v
  }

  function Total(a: seq<int>): int {
    if a == [] then 0 else a[0] + Total(a[1..])
  }

  function Count(a: seq<int>, x: int): nat {
    if a == [] then 0 else (if a[0] == x then 1 else 0) + Count(a[1..], x)
  }

  lemma {:induction false} TotalAppend(a: seq<int>, b: seq<int>)
    ensures Total(a + b) == Total(a) + Total(b)
    ensures Count(a + b, 4) == Count(a, 4) + Count(b, 4)
    decreases |a|
  {
    if a == [] {
      assert a + b == b;
    } else {
      assert (a + b)[1..] == a[1..] + b;
      TotalAppend(a[1..], b);
    }
  }

  /** Total and Count around index k. */
  lemma Around(a: seq<int>, k: nat)
    requires k < |a|
    ensures Total(a) == Total(a[..k]) + a[k] + Total(a[k + 1..])
    ensures Count(a, 4) == Count(a[..k], 4) + (if a[k] == 4 then 1 else 0) + Count(a[k + 1..], 4)
  {
    var pre, x, post := a[..k], a[k], a[k + 1..];
    var tail := [x] + post;
    assert a == pre + tail;
    TotalAppend(pre, tail);
    TotalAppend([x], post);
    assert [x][1..] == [];
    assert Total([x]) == x;
    assert Count([x], 4) == (if x == 4 then 1 else 0);
  }

  lemma Update(a: seq<int>, k: nat, x: int)
    requires k < |a|
    ensures Total(a[k := x]) == Total(a) - a[k] + x
    ensures Count(a[k := x], 4) == Count(a, 4) - (if a[k] == 4 then 1 else 0) + (if x == 4 then 1 else 0)
  {
    var b := a[k := x];
    Around(a, k);
    Around(b, k);
    assert b[..k] == a[..k] && b[k + 1..] == a[k + 1..];
  }

  lemma Drop(a: seq<int>, k: nat)
    requires k < |a|
    ensures Total(Remove(a, k).0) == Total(a) - a[k]
    ensures Count(Remove(a, k).0, 4) == Count(a, 4) - (if a[k] == 4 then 1 else 0)
  {
    Around(a, k);
    TotalAppend(a[..k], a[k + 1..]);
  }

  /** What explode loses: the left value when there is no leaf before it,
      the right value when there is none after the pair. */
  function Lost(vals: seq<int>, i: nat): int
    requires i < |vals|
  {
    (if i == 0 then vals[i] else 0) + (if i + 1 < |vals| && i + 2 >= |vals| then vals[i + 1] else 0)
  }

  /** explode keeps the sum of the values but for what falls off the ends,
      and shortens the number by one when the exploding leaf has a right
      neighbour. */
  lemma ExplodeValues(s: SNum)
    requires Valid(s) && Explode(s).1
    ensures var i := FirstEq(s.deps, 4, 0).value; var r := Explode(s).0;
      Total(r.vals) == Total(s.vals) - Lost(s.vals, i) &&
      |r.vals| == |s.vals| - (if i + 1 < |s.vals| then 1 else 0)
  {
    var i := FirstEq(s.deps, 4, 0).value;
    var v := s.vals;
    var v3 := Spread(v, i);
    SpreadTotal(v, i);
    assert Explode(s).0.vals == if i + 1 < |v| then Remove(v3, i + 1).0 else v3;
    if i + 1 < |v| {
      Drop(v3, i + 1);
    }
  }

  /** Spreading moves v[i] to the left neighbour, v[i + 1] to the one two
      places right, each only when that neighbour exists. */
  lemma SpreadTotal(v: seq<int>, i: nat)
    requires i < |v|
    ensures Total(Spread(v, i)) ==
      Total(v) - v[i] + (if i > 0 then v[i] else 0) + (if i + 2 < |v| then v[i + 1] else 0)
  {
    var v1 := GiveLeft(v, i);
    var v2 := GiveRight(v1, i);
    GiveLeftTotal(v, i);
    GiveRightTotal(v1, i);
    assert Spread(v, i) == v2[i := 0];
    Update(v2, i, 0);
  }

  lemma GiveLeftTotal(v: seq<int>, i: nat)
    requires i < |v|
    ensures Total(GiveLeft(v, i)) == Total(v) + (if i > 0 then v[i] else 0)
  {
    if i > 0 {
      var k, x := i - 1, v[i - 1] + v[i];
      assert GiveLeft(v, i) == v[k := x];
      Update(v, k, x);
    }
  }

  lemma GiveRightTotal(v: seq<int>, i: nat)
    requires i < |v|
    ensures Total(GiveRight(v, i)) == Total(v) + (if i + 2 < |v| then v[i + 1] else 0)
  {
    if i + 2 < |v| {
      var k, x := i + 2, v[i + 2] + v[i + 1];
      assert GiveRight(v, i) == v[k := x];
      Update(v, k, x);
    }
  }

  /** explode leaves one depth-4 leaf fewer. */
  lemma ExplodeDepths(s: SNum)
    requires Valid(s) && Explode(s).1
    ensures Count(Explode(s).0.deps, 4) < Count(s.deps, 4)
  {
    var i := FirstEq(s.deps, 4, 0).value;
    Update(s.deps, i, 3);
    if i + 1 < |s.deps| {
      Drop(s.deps[i := 3], i + 1);
    }
  }

  /** split: the first value of at least 10 becomes a pair one level
      deeper, its halves rounded down and up. */
  function Split(s: SNum): (res: (SNum, bool))
    requires Valid(s)
    ensures Valid(res.0)
    ensures res.1 <==> exists j :: 0 <= j < |s.vals| && s.vals[j] >= 10
    ensures !res.1 ==> res.0 == s
  {
    match FirstBig(s.vals, 0)
    case None => (s, false)
    case Some(i) =>
      var v := s.vals[i];
      var d := s.deps[i] + 1;
      (SNum(Insert(s.vals[i := v / 2], i + 1, v - v / 2), Insert(s.deps[i := d], i + 1, d)), true)
  }

  lemma InsertParts(a: seq<int>, i: nat, v: int)
    requires i <= |a|
    ensures Insert(a, i, v)[..i] == a[..i] && Insert(a, i, v)[i + 1..] == a[i..]
    ensures Total(Insert(a, i, v)) == Total(a) + v
  {
    InsertRemove(a, i, v);
    Drop(Insert(a, i, v), i);
  }

  /** split keeps the sum: the two halves, each below the old value, add up
      to it, and the values around them are unchanged. */
  lemma SplitValues(s: SNum)
    requires Valid(s) && Split(s).1
    ensures var i := FirstBig(s.vals, 0).value; var r := Split(s).0;
      Total(r.vals) == Total(s.vals) &&
      r.vals[i] + r.vals[i + 1] == s.vals[i] &&
      0 < r.vals[i] <= r.vals[i + 1] <= r.vals[i] + 1 < s.vals[i] &&
      r.vals[..i] == s.vals[..i] && r.vals[i + 2..] == s.vals[i + 1..]
  {
    var i := FirstBig(s.vals, 0).value;
    var v := s.vals[i];
    var a := s.vals[i := v / 2];
    Update(s.vals, i, v / 2);
    InsertParts(a, i + 1, v - v / 2);
    assert a[..i] == s.vals[..i] && a[i + 1..] == s.vals[i + 1..];
    Halves(v);
  }

  /** split puts both halves one level below the old leaf and leaves the
      other depths alone. */
  lemma SplitDepths(s: SNum)
    requires Valid(s) && Split(s).1
    ensures var i := FirstBig(s.vals, 0).value; var r := Split(s).0;
      r.deps[i] == r.deps[i + 1] == s.deps[i] + 1 &&
      r.deps[..i] == s.deps[..i] && r.deps[i + 2..] == s.deps[i + 1..]
  {
    var i := FirstBig(s.vals, 0).value;
    var d := s.deps[i] + 1;
    var e := s.deps[i := d];
    InsertParts(e, i + 1, d);
    assert e[..i] == s.deps[..i] && e[i + 1..] == s.deps[i + 1..];
  }

  lemma Halves(v: int)
    requires v >= 10
    ensures 0 < v / 2 <= v - v / 2 <= v / 2 + 1 < v
  {
  }

  /** Neither explode nor split applies. */
  predicate Reduced(s: SNum) {
    (forall j :: 0 <= j < |s.deps| ==> s.deps[j] != 4) &&
    (forall j :: 0 <= j < |s.vals| ==> s.vals[j] < 10)
  }

  /** One pass of reduce's loop: an explosion if there is one, else a
      split, else None. */
  function Step(s: SNum): (r: Option<SNum>)
    ensures r.Some? ==> Valid(r.value)
  {
    if !Valid(s) then None
    else if Explode(s).1 then Some(Explode(s).0)
    else if Split(s).1 then Some(Split(s).0)
    else None
  }

  /** The loop stops exactly on a reduced number. */
  lemma StepStops(s: SNum)
    ensures Valid(s) ==> (Step(s).None? <==> Reduced(s))
  {
  }

  /** Apply step until it has nothing to do, for at most fuel passes. */
  function Iterate(step: SNum -> Option<SNum>, s: SNum, fuel: nat): Option<SNum>
    decreases fuel
  {
    if fuel == 0 then None
    else match step(s)
      case None => Some(s)
      case Some(t) => Iterate(step, t, fuel - 1)
  }

  lemma {:induction false} IterateStops(step: SNum -> Option<SNum>, inv: SNum -> bool, s: SNum, fuel: nat)
    requires inv(s) && forall x :: inv(x) && step(x).Some? ==> inv(step(x).value)
    ensures Iterate(step, s, fuel).Some? ==>
      step(Iterate(step, s, fuel).value).None? && inv(Iterate(step, s, fuel).value)
    decreases fuel
  {
    if fuel > 0 && step(s).Some? {
      IterateStops(step, inv, step(s).value, fuel - 1);
    }
  }

  /** More fuel changes no answer: the bound only cuts the loop short. */
  lemma {:induction false} IterateMoreFuel(step: SNum -> Option<SNum>, s: SNum, fuel: nat, more: nat)
    requires Iterate(step, s, fuel).Some? && fuel <= more
    ensures Iterate(step, s, more) == Iterate(step, s, fuel)
    decreases fuel
  {
    if step(s).Some? {
      IterateMoreFuel(step, step(s).value, fuel - 1, more - 1);
    }
  }

  /** reduce: explode while possible, else split, until neither applies.
      The fuel bounds the number of passes; None means it ran out. */
  function Reduce(s: SNum, fuel: nat): (r: Option<SNum>)
    requires Valid(s)
    ensures r.Some? ==> Valid(r.value) && Reduced(r.value)
  {
    IterateStops(Step, Valid, s, fuel);
    var r := Iterate(Step, s, fuel);
    if r.Some? then StepStops(r.value); r else r
  }

  /** A reduced number is left as it is. */
  lemma ReduceFixed(s: SNum, fuel: nat)
    requires Valid(s) && fuel >= 1
    ensures Reduce(s, fuel) == Some(s) <==> Reduced(s)
  {
    StepStops(s);
  }

  /** More fuel changes no answer of reduce. */
  lemma ReduceMoreFuel(s: SNum, fuel: nat, more: nat)
    requires Valid(s) && Reduce(s, fuel).Some? && fuel <= more
    ensures Reduce(s, more) == Reduce(s, fuel)
  {
    IterateMoreFuel(Step, s, fuel, more);
  }

  /** Reducing a reduced result again changes nothing. */
  lemma ReduceIdempotent(s: SNum, fuel: nat, again: nat)
    requires Valid(s) && Reduce(s, fuel).Some? && again >= 1
    ensures Reduce(Reduce(s, fuel).value, again) == Reduce(s, fuel)
  {
    ReduceFixed(Reduce(s, fuel).value, again);
  }

  /** One pass of mag's loop: the pair at i, i+1 becomes 3*left + 2*right,
      one level up (never above the top). */
  function MagStep(s: SNum, i: nat): (r: SNum)
    requires Valid(s) && i + 1 < |s.vals|
    ensures Valid(r) && |r.vals| == |s.vals| - 1
  {
    var d := s.deps[i];
    SNum(s.vals[..i] + [3 * s.vals[i] + 2 * s.vals[i + 1]] + s.vals[i + 2..],
         s.deps[..i] + [if d > 0 then d - 1 else d] + s.deps[i + 2..])
  }

  /** mag: merge the first two neighbours of equal depth until one value is
      left. None where the source indexes past the end: no values at all,
      or no such neighbours. */
  function Mag(s: SNum): Option<int>
    requires Valid(s)
    decreases |s.vals|
  {
    if |s.vals| == 0 then None
    else if |s.vals| == 1 then Some(s.vals[0])
    else match FirstTwin(s.deps, 0)
      case None => None
      case Some(i) => Mag(MagStep(s, i))
  }

  /** The reference step: the leftmost pair of two leaves becomes a leaf. */
  function Contract(t: Snail): (c: Snail)
    requires t.Pair?
    ensures Size(c) == Size(t) - 1 && Magnitude(c) == Magnitude(t)
  {
    match t
    case Pair(Leaf(a), Leaf(b)) => Leaf(3 * a + 2 * b)
    case Pair(Pair(_, _), r) => Pair(Contract(t.l), r)
    case Pair(Leaf(a), Pair(_, _)) => Pair(Leaf(a), Contract(t.r))
  }

  /** Where the leftmost pair of two leaves starts among the leaves. */
  function Leftmost(t: Snail): nat
    requires t.Pair?
  {
    match t
    case Pair(Leaf(_), Leaf(_)) => 0
    case Pair(Pair(_, _), _) => Leftmost(t.l)
    case Pair(Leaf(_), Pair(_, _)) => 1 + Leftmost(t.r)
  }

  lemma {:induction false} FlatDepths(t: Snail, d: int)
    ensures forall j :: 0 <= j < |Flat(t, d).deps| ==> Flat(t, d).deps[j] >= (if t.Pair? then d + 1 else d)
  {
    match t
    case Leaf(_) =>
    case Pair(l, r) =>
      FlatDepths(l, d + 1);
      FlatDepths(r, d + 1);
  }

  /** The first equal neighbours of a flattened pair are the leftmost pair
      of two leaves. */
  lemma {:induction false} FirstTwinFlat(t: Snail, d: int)
    requires t.Pair?
    ensures FirstTwin(Flat(t, d).deps, 0) == Some(Leftmost(t))
  {
    var l, r := t.l, t.r;
    if l.Pair? {
      FirstTwinFlat(l, d + 1);
      TwinLeft(l, r, d);
    } else if r.Pair? {
      FirstTwinFlat(r, d + 1);
      TwinRight(l.v, r, d);
    } else {
      assert Flat(t, d).deps == [d + 1, d + 1];
    }
  }

  /** The first twins of a left subtree are the first twins of the tree. */
  lemma TwinLeft(l: Snail, r: Snail, d: int)
    requires l.Pair? && FirstTwin(Flat(l, d + 1).deps, 0) == Some(Leftmost(l))
    ensures FirstTwin(Flat(Pair(l, r), d).deps, 0) == Some(Leftmost(Pair(l, r)))
  {
    var t := Pair(l, r);
    var ds, x := Flat(t, d).deps, Flat(l, d + 1).deps;
    var i := Leftmost(l);
    assert Leftmost(t) == i;
    assert Flat(t, d) == Cat(Flat(l, d + 1), Flat(r, d + 1));
    assert ds == x + Flat(r, d + 1).deps;
    assert forall j :: 0 <= j <= i + 1 ==> ds[j] == x[j];
    FirstTwinIs(ds, i);
  }

  /** After a leaf, the first twins of the right subtree, one place on, are
      the first twins of the tree. */
  lemma TwinRight(a: int, r: Snail, d: int)
    requires r.Pair? && FirstTwin(Flat(r, d + 1).deps, 0) == Some(Leftmost(r))
    ensures FirstTwin(Flat(Pair(Leaf(a), r), d).deps, 0) == Some(Leftmost(Pair(Leaf(a), r)))
  {
    var t := Pair(Leaf(a), r);
    var ds, y := Flat(t, d).deps, Flat(r, d + 1).deps;
    var i := Leftmost(r);
    assert Leftmost(t) == i + 1;
    FlatDepths(r, d + 1);
    assert Flat(t, d) == Cat(Flat(Leaf(a), d + 1), Flat(r, d + 1));
    assert ds == [d + 1] + y;
    assert forall j :: 1 <= j < |ds| ==> ds[j] == y[j - 1];
    FirstTwinIs(ds, i + 1);
  }

  /** FirstTwin finds i when i is the first index equal to its successor. */
  lemma FirstTwinIs(ds: seq<int>, i: nat)
    requires i + 1 < |ds| && ds[i] == ds[i + 1]
    requires forall j :: 0 <= j < i ==> ds[j] != ds[j + 1]
    ensures FirstTwin(ds, 0) == Some(i)
  {
  }

  lemma StepCat(a: SNum, b: SNum, i: nat)
    requires Valid(a) && Valid(b) && i + 1 < |a.vals|
    ensures MagStep(Cat(a, b), i) == Cat(MagStep(a, i), b)
  {
    var c := Cat(a, b);
    assert c.vals[..i] == a.vals[..i] && c.vals[i + 2..] == a.vals[i + 2..] + b.vals;
    assert c.deps[..i] == a.deps[..i] && c.deps[i + 2..] == a.deps[i + 2..] + b.deps;
  }

  lemma StepCons(a: SNum, b: SNum, i: nat)
    requires Valid(a) && Valid(b) && i + 1 < |b.vals|
    ensures MagStep(Cat(a, b), |a.vals| + i) == Cat(a, MagStep(b, i))
  {
    var c, k := Cat(a, b), |a.vals| + i;
    assert c.vals[..k] == a.vals + b.vals[..i] && c.vals[k + 2..] == b.vals[i + 2..];
    assert c.deps[..k] == a.deps + b.deps[..i] && c.deps[k + 2..] == b.deps[i + 2..];
  }

  /** Merging at the leftmost pair of leaves flattens the contracted tree
      (below the top level, where the depth does go down). */
  lemma {:induction false} StepFlat(t: Snail, d: int)
    requires t.Pair? && d >= -1 && (d >= 0 || !(t.l.Leaf? && t.r.Leaf?))
    ensures Leftmost(t) + 1 < |Flat(t, d).vals|
    ensures MagStep(Flat(t, d), Leftmost(t)) == Flat(Contract(t), d)
  {
    var l, r := t.l, t.r;
    if l.Pair? {
      StepFlat(l, d + 1);
      StepLeft(l, r, d);
    } else if r.Pair? {
      StepFlat(r, d + 1);
      StepRight(l.v, r, d);
    } else {
      StepPair(l.v, r.v, d);
    }
  }

  /** The merge inside a left subtree carries over to the whole tree. */
  lemma StepLeft(l: Snail, r: Snail, d: int)
    requires l.Pair? && Leftmost(l) + 1 < |Flat(l, d + 1).vals|
    requires MagStep(Flat(l, d + 1), Leftmost(l)) == Flat(Contract(l), d + 1)
    ensures Leftmost(Pair(l, r)) + 1 < |Flat(Pair(l, r), d).vals|
    ensures MagStep(Flat(Pair(l, r), d), Leftmost(Pair(l, r))) == Flat(Contract(Pair(l, r)), d)
  {
    var t := Pair(l, r);
    var fl, fr := Flat(l, d + 1), Flat(r, d + 1);
    StepCat(fl, fr, Leftmost(l));
    assert Flat(t, d) == Cat(fl, fr);
    assert Contract(t) == Pair(Contract(l), r);
    assert Flat(Contract(t), d) == Cat(Flat(Contract(l), d + 1), fr);
  }

  /** The merge inside a right subtree, after a leaf, carries over to the
      whole tree. */
  lemma StepRight(a: int, r: Snail, d: int)
    requires r.Pair? && Leftmost(r) + 1 < |Flat(r, d + 1).vals|
    requires MagStep(Flat(r, d + 1), Leftmost(r)) == Flat(Contract(r), d + 1)
    ensures Leftmost(Pair(Leaf(a), r)) + 1 < |Flat(Pair(Leaf(a), r), d).vals|
    ensures MagStep(Flat(Pair(Leaf(a), r), d), Leftmost(Pair(Leaf(a), r))) == Flat(Contract(Pair(Leaf(a), r)), d)
  {
    var t := Pair(Leaf(a), r);
    var fl, fr := Flat(Leaf(a), d + 1), Flat(r, d + 1);
    StepCons(fl, fr, Leftmost(r));
    assert Flat(t, d) == Cat(fl, fr);
    assert Contract(t) == Pair(Leaf(a), Contract(r));
    assert Flat(Contract(t), d) == Cat(fl, Flat(Contract(r), d + 1));
  }

  /** Two leaves at depth d + 1 merge into one at depth d. */
  lemma StepPair(a: int, b: int, d: int)
    requires d >= 0
    ensures MagStep(Flat(Pair(Leaf(a), Leaf(b)), d), 0) == Flat(Leaf(3 * a + 2 * b), d)
  {
    var s := Flat(Pair(Leaf(a), Leaf(b)), d);
    assert s == SNum([a, b], [d + 1, d + 1]);
    assert s.vals[..0] == [] && s.vals[2..] == [] && s.deps[..0] == [] && s.deps[2..] == [];
  }

  /** mag of a flattened tree is the tree's magnitude. */
  lemma {:induction false} MagFlat(t: Snail)
    ensures Mag(Flat(t, -1)) == Some(Magnitude(t))
    decreases Size(t)
  {
    if t.Pair? {
      var s := Flat(t, -1);
      FirstTwinFlat(t, -1);
      if t.l.Leaf? && t.r.Leaf? {
        assert MagStep(s, 0) == SNum([Magnitude(t)], [0]);
      } else {
        StepFlat(t, -1);
        MagFlat(Contract(t));
      }
    }
  }
}
