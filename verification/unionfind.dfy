/** Circuit junction boxes (2025/8/aoc8.go): union-find with path compression
    and union by size, and the squared distance that orders the edges.

    A forest is a parent array in which every element reaches a root (an
    element that is its own parent) by following parents. The proofs carry
    a ghost bound f on the number of steps; union can raise it by one.
 */
module UnionFind {

  datatype Dsu = Dsu(parent: seq<int>, size: seq<int>)

  /** Parents are elements, and there is one size per element. */
  predicate InRange(d: Dsu) {
    |d.size| == |d.parent| && forall x :: 0 <= x < |d.parent| ==> 0 <= d.parent[x] < |d.parent|
  }

  /** x reaches a root in at most f steps. */
  predicate Reaches(d: Dsu, x: int, f: nat)
    requires InRange(d) && 0 <= x < |d.parent|
    decreases f
  {
    d.parent[x] == x || (f > 0 && Reaches(d, d.parent[x], f - 1))
  }

  /** The root x reaches: an element that is its own parent. */
  function Root(d: Dsu, x: int, f: nat): (r: int)
    requires InRange(d) && 0 <= x < |d.parent| && Reaches(d, x, f)
    ensures 0 <= r < |d.parent| && d.parent[r] == r
    ensures d.parent[x] == x ==> r == x
    decreases f
  {
    if d.parent[x] == x then x else Root(d, d.parent[x], f - 1)
  }

  /** Number of parent steps from x to its root. */
  function Steps(d: Dsu, x: int, f: nat): nat
    requires InRange(d) && 0 <= x < |d.parent| && Reaches(d, x, f)
    decreases f
  {
    if d.parent[x] == x then 0 else 1 + Steps(d, d.parent[x], f - 1)
  }

  /** Every element reaches a root within f steps. */
  predicate Forest(d: Dsu, f: nat) {
    InRange(d) && forall x :: 0 <= x < |d.parent| ==> Reaches(d, x, f)
  }

  /** More fuel changes neither the root nor the step count. */
  lemma {:induction false} MoreFuel(d: Dsu, x: int, f: nat, f': nat)
    requires InRange(d) && 0 <= x < |d.parent| && Reaches(d, x, f) && f <= f'
    ensures Reaches(d, x, f') && Root(d, x, f') == Root(d, x, f) && Steps(d, x, f') == Steps(d, x, f)
    decreases f
  {
    if d.parent[x] != x {
      MoreFuel(d, d.parent[x], f - 1, f' - 1);
    }
  }

  /** newDSU: every element is its own root, of size 1. */
  function NewDsu(n: nat): (d: Dsu)
    ensures |d.parent| == n && Forest(d, 0)
    ensures forall x :: 0 <= x < n ==> Root(d, x, 0) == x && d.size[x] == 1
  {
    Dsu(seq(n, i => i), seq(n, i => 1))
  }

  /** Pointing x, not a root, straight at its root r keeps the root of y,
      and brings y no further from it. */
  lemma {:induction false} CompressOne(d: Dsu, x: int, r: int, f: nat, y: int, g: nat)
    requires InRange(d) && 0 <= x < |d.parent| && d.parent[x] != x && Reaches(d, x, f) && r == Root(d, x, f)
    requires 0 <= y < |d.parent| && Reaches(d, y, g)
    ensures var d' := Dsu(d.parent[x := r], d.size);
      InRange(d') && Reaches(d', y, g) && Root(d', y, g) == Root(d, y, g) && Steps(d', y, g) <= Steps(d, y, g)
    decreases g
  {
    var d' := Dsu(d.parent[x := r], d.size);
    if y == x {
      MoreFuel(d, x, f, g + f);
      MoreFuel(d, x, g, g + f);
      assert Reaches(d', r, g - 1);
    } else if d.parent[y] != y {
      CompressOne(d, x, r, f, d.parent[y], g - 1);
    }
  }

  lemma Compress(d: Dsu, x: int, f: nat) returns (d': Dsu)
    requires Forest(d, f) && 0 <= x < |d.parent| && d.parent[x] != x
    ensures d' == Dsu(d.parent[x := Root(d, x, f)], d.size) && Forest(d', f)
    ensures forall y :: 0 <= y < |d.parent| ==> Root(d', y, f) == Root(d, y, f) && Steps(d', y, f) <= Steps(d, y, f)
  {
    d' := Dsu(d.parent[x := Root(d, x, f)], d.size);
    forall y | 0 <= y < |d.parent|
      ensures InRange(d') && Reaches(d', y, f) && Root(d', y, f) == Root(d, y, f) && Steps(d', y, f) <= Steps(d, y, f)
    {
      CompressOne(d, x, Root(d, x, f), f, y, f);
    }
  }

  lemma ForestMoreFuel(d: Dsu, f: nat, f': nat)
    requires Forest(d, f) && f <= f'
    ensures Forest(d, f') && forall y :: 0 <= y < |d.parent| ==> Root(d, y, f') == Root(d, y, f)
  {
    forall y | 0 <= y < |d.parent| ensures Reaches(d, y, f') && Root(d, y, f') == Root(d, y, f) {
      MoreFuel(d, y, f, f');
    }
  }

  /** find: the root of x, with every element on x's path re-pointed at it.
      No element's root changes, and the sizes are untouched. */
  method Find(d: Dsu, x: int, ghost f: nat) returns (d': Dsu, root: int)
    requires Forest(d, f) && 0 <= x < |d.parent|
    ensures Forest(d', f) && |d'.parent| == |d.parent| && d'.size == d.size
    ensures root == Root(d, x, f) && d'.parent[root] == root
    ensures forall y :: 0 <= y < |d.parent| ==> Root(d', y, f) == Root(d, y, f)
  {
    root := FindRoot(d, x, f);
    d' := CompressPath(d, x, root, f);
  }

  /** The first loop of find: follow parents up to the root. */
  method FindRoot(d: Dsu, x: int, ghost f: nat) returns (root: int)
    requires Forest(d, f) && 0 <= x < |d.parent|
    ensures root == Root(d, x, f)
  {
    root := x;
    while d.parent[root] != root
      invariant 0 <= root < |d.parent| && Root(d, root, f) == Root(d, x, f)
      decreases Steps(d, root, f)
    {
      MoreFuel(d, d.parent[root], f - 1, f);
      root := d.parent[root];
    }
  }

  /** The second loop of find: re-point every element on x's path at root. */
  method CompressPath(d: Dsu, x: int, root: int, ghost f: nat) returns (d': Dsu)
    requires Forest(d, f) && 0 <= x < |d.parent| && root == Root(d, x, f)
    ensures Forest(d', f) && |d'.parent| == |d.parent| && d'.size == d.size && d'.parent[root] == root
    ensures forall y :: 0 <= y < |d.parent| ==> Root(d', y, f) == Root(d, y, f)
  {
    d' := d;
    var y := x;
    while d'.parent[y] != y
      invariant Forest(d', f) && |d'.parent| == |d.parent| && d'.size == d.size && 0 <= y < |d.parent|
      invariant forall z :: 0 <= z < |d.parent| ==> Root(d', z, f) == Root(d, z, f)
      invariant Root(d', y, f) == root
      decreases Steps(d', y, f)
    {
      var next := d'.parent[y];
      assert Reaches(d', y, f);
      MoreFuel(d', next, f - 1, f);
      ghost var d'' := Compress(d', y, f);
      d' := Dsu(d'.parent[y := root], d'.size);
      y := next;
    }
  }

  /** Hanging root b under root a (sizes aside): b's elements now reach a,
      one step further than before; everything else keeps its root. */
  lemma {:induction false} LinkOne(d: Dsu, a: int, b: int, sz: seq<int>, y: int, g: nat)
    requires InRange(d) && 0 <= a < |d.parent| && 0 <= b < |d.parent| && a != b && |sz| == |d.size|
    requires d.parent[a] == a && d.parent[b] == b && 0 <= y < |d.parent| && Reaches(d, y, g)
    ensures var d' := Dsu(d.parent[b := a], sz);
      InRange(d') && Reaches(d', y, g + 1) &&
      Root(d', y, g + 1) == if Root(d, y, g) == b then a else Root(d, y, g)
    decreases g
  {
    var d' := Dsu(d.parent[b := a], sz);
    if y == b {
      assert Reaches(d', a, g);
    } else if d.parent[y] != y {
      LinkOne(d, a, b, sz, d.parent[y], g - 1);
    }
  }

  lemma Link(d: Dsu, a: int, b: int, sz: seq<int>, f: nat)
    requires Forest(d, f) && 0 <= a < |d.parent| && 0 <= b < |d.parent| && a != b && |sz| == |d.size|
    requires d.parent[a] == a && d.parent[b] == b
    ensures var d' := Dsu(d.parent[b := a], sz);
      Forest(d', f + 1) &&
      forall y :: 0 <= y < |d.parent| ==> Root(d', y, f + 1) == if Root(d, y, f) == b then a else Root(d, y, f)
  {
    var d', g := Dsu(d.parent[b := a], sz), f + 1;
    LinkOne(d, a, b, sz, a, f);
    forall y | 0 <= y < |d.parent|
      ensures InRange(d') && Reaches(d', y, g) && Root(d', y, g) == if Root(d, y, f) == b then a else Root(d, y, f)
    {
      LinkOne(d, a, b, sz, y, f);
    }
  }

  /** union: after the two finds, the root of the smaller set (b's on a
      tie) is hung under the other, whose size becomes the sum. */
  method Union(d: Dsu, a: int, b: int, ghost f: nat) returns (d': Dsu)
    requires Forest(d, f) && 0 <= a < |d.parent| && 0 <= b < |d.parent|
    ensures Forest(d', f + 1) && |d'.parent| == |d.parent|
    ensures Root(d', a, f + 1) == Root(d', b, f + 1)
    ensures Root(d, a, f) == Root(d, b, f) ==>
      d'.size == d.size && forall y :: 0 <= y < |d.parent| ==> Root(d', y, f + 1) == Root(d, y, f)
    ensures var ra, rb := Root(d, a, f), Root(d, b, f);
      var big := if d.size[ra] < d.size[rb] then rb else ra;
      var small := if d.size[ra] < d.size[rb] then ra else rb;
      ra != rb ==>
        d'.parent[small] == big && d'.size == d.size[big := d.size[big] + d.size[small]] &&
        forall y :: 0 <= y < |d.parent| ==>
          Root(d', y, f + 1) == if Root(d, y, f) == small then big else Root(d, y, f)
  {
    var d1, ra := Find(d, a, f);
    var d2, rb := Find(d1, b, f);
    if ra == rb {
      ForestMoreFuel(d2, f, f + 1);
      return d2;
    }
    if d2.size[ra] < d2.size[rb] {
      ra, rb := rb, ra;
    }
    Link(d2, ra, rb, d2.size[ra := d2.size[ra] + d2.size[rb]], f);
    d' := Dsu(d2.parent[rb := ra], d2.size[ra := d2.size[ra] + d2.size[rb]]);
  }

  datatype Point = Point(x: int, y: int, z: int)

  /** dist2: the squared Euclidean distance. It vanishes exactly on equal
      points. */
  function Dist2(a: Point, b: Point): (r: int)
    ensures r >= 0
    ensures r == 0 <==> a == b
  {
    var dx, dy, dz := a.x - b.x, a.y - b.y, a.z - b.z;
    dx * dx + dy * dy + dz * dz
  }

  /** The distance does not depend on the order of the points. */
  lemma Dist2Symmetric(a: Point, b: Point)
    ensures Dist2(a, b) == Dist2(b, a)
  {
    var dx, dy, dz := a.x - b.x, a.y - b.y, a.z - b.z;
    assert (-dx) * (-dx) == dx * dx && (-dy) * (-dy) == dy * dy && (-dz) * (-dz) == dz * dz;
  }
}
