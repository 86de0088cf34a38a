/** Reactor Reboot (2021/22/aoc22.go): reboot steps switch every cube of an
    axis-aligned box (a cubo) on or off; the lit cubes are kept as the
    leaves of a k-d tree whose internal nodes split space along one axis at
    one coordinate, and recount sums the volumes of the leaves. */
module Reactor {
  import opened Wrappers

  datatype Axis = X | Y | Z

  datatype Vec = Vec(x: int, y: int, z: int)

  /** v[a]. */
  function At(v: Vec, a: Axis): int {
    match a
    case X => v.x
    case Y => v.y
    case Z => v.z
  }

  /** v with v[a] = k. */
  function With(v: Vec, a: Axis, k: int): Vec {
    match a
    case X => v.(x := k)
    case Y => v.(y := k)
    case Z => v.(z := k)
  }

  function Lesser(a: int, b: int): int {
    if a < b then a else b
  }

  function Greater(a: int, b: int): int {
    if a > b then a else b
  }

  /** The file's min and max on vectors: axis by axis. */
  function VMin(a: Vec, b: Vec): Vec {
    Vec(Lesser(a.x, b.x), Lesser(a.y, b.y), Lesser(a.z, b.z))
  }

  function VMax(a: Vec, b: Vec): Vec {
    Vec(Greater(a.x, b.x), Greater(a.y, b.y), Greater(a.z, b.z))
  }

  /** A cubo: the cubes from min to max, both included, on every axis. */
  datatype Cubo = Cubo(lo: Vec, hi: Vec)

  /** p is one of c's cubes. */
  predicate InCube(p: Vec, c: Cubo) {
    c.lo.x <= p.x <= c.hi.x && c.lo.y <= p.y <= c.hi.y && c.lo.z <= p.z <= c.hi.z
  }

  /** ok: no axis has min above max. */
  predicate Ok(c: Cubo) {
    c.lo.x <= c.hi.x && c.lo.y <= c.hi.y && c.lo.z <= c.hi.z
  }

  /** aabb: c and d overlap on every axis. */
  predicate Aabb(c: Cubo, d: Cubo) {
    c.lo.x <= d.hi.x && c.hi.x >= d.lo.x &&
    c.lo.y <= d.hi.y && c.hi.y >= d.lo.y &&
    c.lo.z <= d.hi.z && c.hi.z >= d.lo.z
  }

  /** contains: d lies within c on every axis. */
  predicate Contains(c: Cubo, d: Cubo) {
    Within(c, d, X) && Within(c, d, Y) && Within(c, d, Z)
  }

  /** trim: c cut down to the region r. */
  function Trim(c: Cubo, r: Cubo): (t: Cubo)
    ensures forall p :: InCube(p, t) <==> InCube(p, c) && InCube(p, r)
  {
    Cubo(VMax(c.lo, r.lo), VMin(c.hi, r.hi))
  }

  /** vol: the product of the three side lengths. */
  function Vol(c: Cubo): (v: int)
    ensures Ok(c) ==> v > 0
  {
    (1 + c.hi.x - c.lo.x) * (1 + c.hi.y - c.lo.y) * (1 + c.hi.z - c.lo.z)
  }

  /** Only a valid cubo has cubes. */
  lemma NonEmpty(p: Vec, c: Cubo)
    requires InCube(p, c)
    ensures Ok(c)
  {
  }

  /** A valid cubo's corners are two of its cubes. */
  lemma Corners(c: Cubo)
    requires Ok(c)
    ensures InCube(c.lo, c) && InCube(c.hi, c)
  {
  }

  /** contains is inclusion of the cube sets, for a valid inner cubo. */
  lemma ContainsCubes(c: Cubo, d: Cubo)
    requires Ok(d)
    ensures Contains(c, d) <==> forall p :: InCube(p, d) ==> InCube(p, c)
  {
    if forall p :: InCube(p, d) ==> InCube(p, c) {
      Corners(d);
      assert InCube(d.lo, c) && InCube(d.hi, c);
    }
  }

  /** aabb is a shared cube, for valid cubos. */
  lemma AabbCubes(c: Cubo, d: Cubo)
    requires Ok(c) && Ok(d)
    ensures Aabb(c, d) <==> exists p :: InCube(p, c) && InCube(p, d)
  {
    var t := Trim(c, d);
    if Aabb(c, d) {
      Corners(t);
      assert InCube(t.lo, c) && InCube(t.lo, d);
    }
  }

  /** Valid boxes: contains implies aabb. */
  lemma ContainsOverlaps(c: Cubo, d: Cubo)
    requires Ok(c) && Ok(d) && Contains(c, d)
    ensures Aabb(c, d)
  {
    Corners(d);
    assert InCube(d.lo, c);
    AabbCubes(c, d);
  }

  /** A valid trim lies within both the cubo and the region. */
  lemma TrimWithin(c: Cubo, r: Cubo)
    requires Ok(Trim(c, r))
    ensures Contains(c, Trim(c, r)) && Contains(r, Trim(c, r))
  {
    ContainsCubes(c, Trim(c, r));
    ContainsCubes(r, Trim(c, r));
  }

  /** The k-d tree: nil, a leaf holding one lit cubo, or an internal node
      splitting along axis a at v, the cubes with p[a] <= v on the left. */
  datatype Tree = Nil | Leaf(c: Cubo) | Split(a: Axis, v: int, left: Tree, right: Tree)

  /** p is lit in t: it is in one of t's leaves. */
  predicate In(p: Vec, t: Tree) {
    match t
    case Nil => false
    case Leaf(c) => InCube(p, c)
    case Split(_, _, l, r) => In(p, l) || In(p, r)
  }

  /** The k-d invariant: every internal node's left cubes lie at or below
      its split, its right cubes above. */
  ghost predicate Kd(t: Tree) {
    match t
    case Split(a, v, l, r) =>
      Kd(l) && Kd(r) &&
      (forall p :: In(p, l) ==> At(p, a) <= v) &&
      (forall p :: In(p, r) ==> At(p, a) > v)
    case _ => true
  }

  /** No internal node has a nil child: reboot and the splits never build one. */
  predicate Full(t: Tree) {
    match t
    case Split(_, _, l, r) => l != Nil && r != Nil && Full(l) && Full(r)
    case _ => true
  }

  /** Every leaf holds a valid cubo. */
  predicate Valid(t: Tree) {
    match t
    case Nil => true
    case Leaf(c) => Ok(c)
    case Split(_, _, l, r) => Valid(l) && Valid(r)
  }

  /** How far d sticks out of c: the sides where d passes c's faces. */
  function Out(c: Cubo, d: Cubo): nat {
    (if d.lo.x < c.lo.x then 1 else 0) + (if d.hi.x > c.hi.x then 1 else 0) +
    (if d.lo.y < c.lo.y then 1 else 0) + (if d.hi.y > c.hi.y then 1 else 0) +
    (if d.lo.z < c.lo.z then 1 else 0) + (if d.hi.z > c.hi.z then 1 else 0)
  }

  /** d lies within c along axis a. */
  predicate Within(c: Cubo, d: Cubo, a: Axis) {
    At(c.lo, a) <= At(d.lo, a) && At(c.hi, a) >= At(d.hi, a)
  }

  /** The part of c from k up along a. */
  function Upper(c: Cubo, a: Axis, k: int): Cubo {
    Cubo(With(c.lo, a, k), c.hi)
  }

  /** The part of c up to k along a. */
  function Lower(c: Cubo, a: Axis, k: int): Cubo {
    Cubo(c.lo, With(c.hi, a, k))
  }

  /** Cutting c along a between k - 1 and k splits its cubes in two. */
  lemma Cut(p: Vec, c: Cubo, a: Axis, k: int)
    requires At(c.lo, a) <= k <= At(c.hi, a) + 1
    ensures InCube(p, Lower(c, a, k - 1)) <==> InCube(p, c) && At(p, a) < k
    ensures InCube(p, Upper(c, a, k)) <==> InCube(p, c) && At(p, a) >= k
  {
  }

  /** Both halves of a valid cubo cut inside it are valid. */
  lemma CutOk(c: Cubo, a: Axis, k: int)
    requires Ok(c) && At(c.lo, a) < k <= At(c.hi, a)
    ensures Ok(Lower(c, a, k - 1)) && Ok(Upper(c, a, k))
  {
  }

  /** Volume adds up across a cut: the two halves' volumes make the whole's. */
  lemma CutVol(c: Cubo, a: Axis, k: int)
    ensures Vol(Lower(c, a, k - 1)) + Vol(Upper(c, a, k)) == Vol(c)
  {
    var dx, dy, dz := 1 + c.hi.x - c.lo.x, 1 + c.hi.y - c.lo.y, 1 + c.hi.z - c.lo.z;
    match a
    case X =>
      assert (k - c.lo.x) * dy * dz + (1 + c.hi.x - k) * dy * dz == dx * dy * dz by {
        assert (k - c.lo.x) * (dy * dz) + (1 + c.hi.x - k) * (dy * dz) == dx * (dy * dz);
      }
    case Y =>
      assert dx * (k - c.lo.y) * dz + dx * (1 + c.hi.y - k) * dz == dx * dy * dz by {
        assert (dx * dz) * (k - c.lo.y) + (dx * dz) * (1 + c.hi.y - k) == (dx * dz) * dy;
      }
    case Z =>
      assert dx * dy * (k - c.lo.z) + dx * dy * (1 + c.hi.z - k) == dx * dy * dz by {
        assert (dx * dy) * (k - c.lo.z) + (dx * dy) * (1 + c.hi.z - k) == (dx * dy) * dz;
      }
  }

  /** add on the leaf cubo n: the cubes of n and c, unchanged when n holds
      c, a leaf c when c holds n, and otherwise the first axis, X then Y
      then Z, where c lies off n or sticks out of it decides the split. */
  function Add(n: Cubo, c: Cubo): (t: Tree)
    decreases Out(n, c), 1
  {
    if Contains(n, c) then Leaf(n)
    else if Contains(c, n) then Leaf(c)
    else
      match AddOn(n, c, X)
      case Some(t) => t
      case None =>
        match AddOn(n, c, Y)
        case Some(t) => t
        case None =>
          match AddOn(n, c, Z)
          case Some(t) => t
          case None => assert false; Leaf(n)
  }

  /** One axis of add's loop: None when c neither lies off n along a nor
      sticks out of it there. */
  function AddOn(n: Cubo, c: Cubo, a: Axis): (r: Option<Tree>)
    ensures r == None ==> Within(n, c, a)
    ensures Ok(c) && Within(n, c, a) ==> r == None
    decreases Out(n, c), 0
  {
    if At(c.hi, a) < At(n.lo, a) then Some(Split(a, At(c.hi, a), Leaf(c), Leaf(n)))
    else if At(c.lo, a) > At(n.hi, a) then Some(Split(a, At(c.lo, a) - 1, Leaf(n), Leaf(c)))
    else if At(c.lo, a) < At(n.lo, a) then
      var v := At(n.lo, a);
      Some(Split(a, v - 1, Leaf(Lower(c, a, v - 1)), Add(n, Upper(c, a, v))))
    else if At(c.hi, a) > At(n.hi, a) then
      var v := At(n.hi, a);
      Some(Split(a, v, Add(n, Lower(c, a, v)), Leaf(Upper(c, a, v + 1))))
    else None
  }

  /** A node over l and r, or the one of them left when the other is nil,
      as del and reboot collapse a nil child. */
  function Join(a: Axis, v: int, l: Tree, r: Tree): Tree {
    if l == Nil then r else if r == Nil then l else Split(a, v, l, r)
  }

  /** Join keeps the cubes of both sides and, when they lie on either side
      of the split, the k-d invariant. */
  lemma JoinKd(a: Axis, v: int, l: Tree, r: Tree)
    requires Kd(l) && Kd(r) && Full(l) && Full(r)
    requires forall p :: In(p, l) ==> At(p, a) <= v
    requires forall p :: In(p, r) ==> At(p, a) > v
    ensures forall p :: In(p, Join(a, v, l, r)) <==> In(p, l) || In(p, r)
    ensures Kd(Join(a, v, l, r)) && Full(Join(a, v, l, r))
  {
  }

  /** del on the leaf cubo n: nil when c holds n, n when they do not
      overlap, and otherwise n cut at the first face of c, X then Y then
      Z, that passes through it. */
  function Del(n: Cubo, c: Cubo): (t: Tree)
    decreases Out(c, n), 1
  {
    if Contains(c, n) then Nil
    else if !Aabb(c, n) then Leaf(n)
    else
      match DelOn(n, c, X)
      case Some(t) => t
      case None =>
        match DelOn(n, c, Y)
        case Some(t) => t
        case None =>
          match DelOn(n, c, Z)
          case Some(t) => t
          case None => assert false; Nil
  }

  /** One axis of del's loop: None when no face of c along a passes
      through n. */
  function DelOn(n: Cubo, c: Cubo, a: Axis): (r: Option<Tree>)
    requires Aabb(c, n)
    ensures r == None <==> Within(c, n, a)
    decreases Out(c, n), 0
  {
    if At(n.lo, a) < At(c.lo, a) && At(n.hi, a) >= At(c.lo, a) then
      var v := At(c.lo, a);
      Some(Join(a, v - 1, Leaf(Lower(n, a, v - 1)), Del(Upper(n, a, v), c)))
    else if At(n.hi, a) > At(c.hi, a) && At(n.lo, a) <= At(c.hi, a) then
      var v := At(c.hi, a);
      Some(Join(a, v, Del(Lower(n, a, v), c), Leaf(Upper(n, a, v + 1))))
    else None
  }

  /** t is a k-d tree with no nil child holding the cubes of n and c. */
  ghost predicate Union(t: Tree, n: Cubo, c: Cubo) {
    (forall p :: In(p, t) <==> InCube(p, n) || InCube(p, c)) && Kd(t) && Full(t) && t != Nil
  }

  /** t is a k-d tree with no nil child holding the cubes of n outside c. */
  ghost predicate Minus(t: Tree, n: Cubo, c: Cubo) {
    (forall p :: In(p, t) <==> InCube(p, n) && !InCube(p, c)) && Kd(t) && Full(t)
  }

  /** What add builds: the cubes of n and c, in a k-d tree with no nil
      child and never nil itself. */
  lemma {:induction false} AddCubes(n: Cubo, c: Cubo)
    ensures forall p :: In(p, Add(n, c)) <==> InCube(p, n) || InCube(p, c)
    ensures Kd(Add(n, c)) && Full(Add(n, c)) && Add(n, c) != Nil
    decreases Out(n, c), 2
  {
    if Contains(n, c) {
    } else if Contains(c, n) {
    } else if AddOn(n, c, X).Some? {
      AddOnCubes(n, c, X);
    } else if AddOn(n, c, Y).Some? {
      AddOnCubes(n, c, Y);
    } else if AddOn(n, c, Z).Some? {
      AddOnCubes(n, c, Z);
    } else {
      assert false;
    }
  }

  /** The same for one axis of add's loop that splits. */
  lemma {:induction false} AddOnCubes(n: Cubo, c: Cubo, a: Axis)
    requires AddOn(n, c, a).Some?
    ensures var t := AddOn(n, c, a).value;
      Union(t, n, c)
    decreases Out(n, c), 1
  {
    if At(c.hi, a) < At(n.lo, a) {
      Apart(c, n, a);
    } else if At(c.lo, a) > At(n.hi, a) {
      Apart(n, c, a);
    } else if At(c.lo, a) < At(n.lo, a) {
      AddBelow(n, c, a);
    } else {
      AddAbove(n, c, a);
    }
  }

  /** Two cubos apart along a, l below r, make a k-d node at l's face. */
  lemma Apart(l: Cubo, r: Cubo, a: Axis)
    requires At(l.hi, a) < At(r.lo, a)
    ensures var t := Split(a, At(l.hi, a), Leaf(l), Leaf(r));
      Union(t, l, r)
    ensures var t := Split(a, At(r.lo, a) - 1, Leaf(l), Leaf(r));
      Union(t, l, r)
  {
  }

  /** add's cut of c at n's lower face along a. */
  lemma {:induction false} AddBelow(n: Cubo, c: Cubo, a: Axis)
    requires At(c.lo, a) < At(n.lo, a) <= At(c.hi, a)
    ensures var v := At(n.lo, a);
      var t := Split(a, v - 1, Leaf(Lower(c, a, v - 1)), Add(n, Upper(c, a, v)));
      Union(t, n, c)
    decreases Out(n, c), 0
  {
    var v := At(n.lo, a);
    assert Out(n, Upper(c, a, v)) < Out(n, c);
    AddCubes(n, Upper(c, a, v));
    forall p ensures InCube(p, c) <==> InCube(p, Lower(c, a, v - 1)) || InCube(p, Upper(c, a, v)) {
      Cut(p, c, a, v);
    }
    forall p | In(p, Leaf(Lower(c, a, v - 1))) ensures At(p, a) <= v - 1 {
      Cut(p, c, a, v);
    }
    forall p | In(p, Add(n, Upper(c, a, v))) ensures At(p, a) > v - 1 {
      Cut(p, c, a, v);
    }
  }

  /** add's cut of c at n's upper face along a. */
  lemma {:induction false} AddAbove(n: Cubo, c: Cubo, a: Axis)
    requires At(c.lo, a) <= At(n.hi, a) < At(c.hi, a)
    ensures var v := At(n.hi, a);
      var t := Split(a, v, Add(n, Lower(c, a, v)), Leaf(Upper(c, a, v + 1)));
      Union(t, n, c)
    decreases Out(n, c), 0
  {
    var v := At(n.hi, a);
    assert Out(n, Lower(c, a, v)) < Out(n, c);
    AddCubes(n, Lower(c, a, v));
    forall p ensures InCube(p, c) <==> InCube(p, Lower(c, a, v)) || InCube(p, Upper(c, a, v + 1)) {
      Cut(p, c, a, v + 1);
    }
    forall p | In(p, Add(n, Lower(c, a, v))) ensures At(p, a) <= v {
      Cut(p, c, a, v + 1);
    }
    forall p | In(p, Leaf(Upper(c, a, v + 1))) ensures At(p, a) > v {
      Cut(p, c, a, v + 1);
    }
  }

  /** A shared cube makes two cubos overlap. */
  lemma Shared(p: Vec, c: Cubo, n: Cubo)
    requires InCube(p, c) && InCube(p, n)
    ensures Aabb(c, n)
  {
  }

  /** What del builds: the cubes of n outside c, in a k-d tree with no nil
      child. */
  lemma {:induction false} DelCubes(n: Cubo, c: Cubo)
    ensures forall p :: In(p, Del(n, c)) <==> InCube(p, n) && !InCube(p, c)
    ensures Kd(Del(n, c)) && Full(Del(n, c))
    decreases Out(c, n), 2
  {
    if Contains(c, n) {
    } else if !Aabb(c, n) {
      forall p | InCube(p, n) ensures !InCube(p, c) {
        if InCube(p, c) {
          Shared(p, c, n);
        }
      }
    } else if DelOn(n, c, X).Some? {
      DelOnCubes(n, c, X);
    } else if DelOn(n, c, Y).Some? {
      DelOnCubes(n, c, Y);
    } else if DelOn(n, c, Z).Some? {
      DelOnCubes(n, c, Z);
    } else {
      assert false;
    }
  }

  /** The same for one axis of del's loop that cuts. */
  lemma {:induction false} DelOnCubes(n: Cubo, c: Cubo, a: Axis)
    requires Aabb(c, n) && DelOn(n, c, a).Some?
    ensures var t := DelOn(n, c, a).value;
      Minus(t, n, c)
    decreases Out(c, n), 1
  {
    if At(n.lo, a) < At(c.lo, a) && At(n.hi, a) >= At(c.lo, a) {
      DelBelow(n, c, a);
    } else {
      DelAbove(n, c, a);
    }
  }

  /** del's cut of n at c's lower face along a. */
  lemma {:induction false} DelBelow(n: Cubo, c: Cubo, a: Axis)
    requires At(n.lo, a) < At(c.lo, a) <= At(n.hi, a)
    ensures var v := At(c.lo, a);
      Minus(Join(a, v - 1, Leaf(Lower(n, a, v - 1)), Del(Upper(n, a, v), c)), n, c)
    decreases Out(c, n), 0
  {
    var v := At(c.lo, a);
    assert Out(c, Upper(n, a, v)) < Out(c, n);
    DelCubes(Upper(n, a, v), c);
    forall p ensures InCube(p, n) <==> InCube(p, Lower(n, a, v - 1)) || InCube(p, Upper(n, a, v)) {
      Cut(p, n, a, v);
    }
    forall p | InCube(p, Lower(n, a, v - 1)) ensures At(p, a) <= v - 1 && !InCube(p, c) {
      Cut(p, n, a, v);
    }
    forall p | In(p, Del(Upper(n, a, v), c)) ensures At(p, a) > v - 1 {
      Cut(p, n, a, v);
    }
    JoinKd(a, v - 1, Leaf(Lower(n, a, v - 1)), Del(Upper(n, a, v), c));
  }

  /** del's cut of n at c's upper face along a. */
  lemma {:induction false} DelAbove(n: Cubo, c: Cubo, a: Axis)
    requires At(n.lo, a) <= At(c.hi, a) < At(n.hi, a)
    ensures var v := At(c.hi, a);
      Minus(Join(a, v, Del(Lower(n, a, v), c), Leaf(Upper(n, a, v + 1))), n, c)
    decreases Out(c, n), 0
  {
    var v := At(c.hi, a);
    assert Out(c, Lower(n, a, v)) < Out(c, n);
    DelCubes(Lower(n, a, v), c);
    forall p ensures InCube(p, n) <==> InCube(p, Lower(n, a, v)) || InCube(p, Upper(n, a, v + 1)) {
      Cut(p, n, a, v + 1);
    }
    forall p | InCube(p, Upper(n, a, v + 1)) ensures At(p, a) > v && !InCube(p, c) {
      Cut(p, n, a, v + 1);
    }
    forall p | In(p, Del(Lower(n, a, v), c)) ensures At(p, a) <= v {
      Cut(p, n, a, v + 1);
    }
    JoinKd(a, v, Del(Lower(n, a, v), c), Leaf(Upper(n, a, v + 1)));
  }

  /** del leaves nothing of a valid n exactly when c holds it, and leaves
      n untouched when they do not overlap. */
  lemma DelNil(n: Cubo, c: Cubo)
    requires Ok(n)
    ensures Del(n, c) == Nil <==> Contains(c, n)
    ensures !Aabb(c, n) ==> Del(n, c) == Leaf(n)
  {
    if Del(n, c) == Nil {
      DelCubes(n, c);
      ContainsCubes(c, n);
    }
  }

  /** add and del cut valid cubos into valid pieces only. */
  lemma {:induction false} AddValid(n: Cubo, c: Cubo)
    requires Ok(n) && Ok(c)
    ensures Valid(Add(n, c))
    decreases Out(n, c), 1
  {
    if Contains(n, c) || Contains(c, n) {
    } else if AddOn(n, c, X).Some? {
      AddOnValid(n, c, X);
    } else if AddOn(n, c, Y).Some? {
      AddOnValid(n, c, Y);
    } else if AddOn(n, c, Z).Some? {
      AddOnValid(n, c, Z);
    }
  }

  lemma {:induction false} AddOnValid(n: Cubo, c: Cubo, a: Axis)
    requires Ok(n) && Ok(c) && AddOn(n, c, a).Some?
    ensures Valid(AddOn(n, c, a).value)
    decreases Out(n, c), 0
  {
    if At(c.hi, a) < At(n.lo, a) || At(c.lo, a) > At(n.hi, a) {
    } else if At(c.lo, a) < At(n.lo, a) {
      var v := At(n.lo, a);
      CutOk(c, a, v);
      AddValid(n, Upper(c, a, v));
    } else {
      var v := At(n.hi, a);
      CutOk(c, a, v + 1);
      AddValid(n, Lower(c, a, v));
    }
  }

  lemma {:induction false} DelValid(n: Cubo, c: Cubo)
    requires Ok(n)
    ensures Valid(Del(n, c))
    decreases Out(c, n), 2
  {
    if Contains(c, n) || !Aabb(c, n) {
    } else if DelOn(n, c, X).Some? {
      DelOnValid(n, c, X);
    } else if DelOn(n, c, Y).Some? {
      DelOnValid(n, c, Y);
    } else if DelOn(n, c, Z).Some? {
      DelOnValid(n, c, Z);
    }
  }

  lemma {:induction false} DelOnValid(n: Cubo, c: Cubo, a: Axis)
    requires Ok(n) && Aabb(c, n) && DelOn(n, c, a).Some?
    ensures Valid(DelOn(n, c, a).value)
    decreases Out(c, n), 1
  {
    if At(n.lo, a) < At(c.lo, a) && At(n.hi, a) >= At(c.lo, a) {
      DelBelowValid(n, c, a);
    } else {
      DelAboveValid(n, c, a);
    }
  }

  lemma {:induction false} DelBelowValid(n: Cubo, c: Cubo, a: Axis)
    requires Ok(n) && At(n.lo, a) < At(c.lo, a) <= At(n.hi, a)
    ensures var v := At(c.lo, a);
      Valid(Join(a, v - 1, Leaf(Lower(n, a, v - 1)), Del(Upper(n, a, v), c)))
    decreases Out(c, n), 0
  {
    var v := At(c.lo, a);
    assert Out(c, Upper(n, a, v)) < Out(c, n);
    CutOk(n, a, v);
    DelValid(Upper(n, a, v), c);
  }

  lemma {:induction false} DelAboveValid(n: Cubo, c: Cubo, a: Axis)
    requires Ok(n) && At(n.lo, a) <= At(c.hi, a) < At(n.hi, a)
    ensures var v := At(c.hi, a);
      Valid(Join(a, v, Del(Lower(n, a, v), c), Leaf(Upper(n, a, v + 1))))
    decreases Out(c, n), 0
  {
    var v := At(c.hi, a);
    assert Out(c, Lower(n, a, v)) < Out(c, n);
    CutOk(n, a, v + 1);
    DelValid(Lower(n, a, v), c);
  }

  /** What a reboot step makes of a cube that was lit or not: on lights
      the cubes inside c, off puts them out, and the rest keep their state. */
  predicate Switch(on: bool, lit: bool, inside: bool) {
    if inside then on else lit
  }

  /** reboot: a nil tree becomes a leaf c when on; a leaf becomes add or
      del of c; an internal node passes each side the part of c on that
      side, when that part is valid, and collapses a side that turned nil. */
  function Reboot(t: Tree, on: bool, c: Cubo): Tree
    decreases t, 1
  {
    match t
    case Nil => if on then Leaf(c) else Nil
    case Leaf(n) => if on then Add(n, c) else Del(n, c)
    case Split(a, v, l, r) =>
      Join(a, v, Side(l, on, Lower(c, a, Lesser(At(c.hi, a), v))), Side(r, on, Upper(c, a, Greater(At(c.lo, a), v + 1))))
  }

  /** One side of an internal node under reboot: rebooted with its part h
      of the step's cubo when h is valid, kept as it is otherwise. */
  function Side(t: Tree, on: bool, h: Cubo): Tree
    decreases t, 2
  {
    if Ok(h) then Reboot(t, on, h) else t
  }

  /** The two parts of c reboot hands an internal node's sides. */
  lemma Clip(p: Vec, c: Cubo, a: Axis, v: int)
    ensures InCube(p, Lower(c, a, Lesser(At(c.hi, a), v))) <==> InCube(p, c) && At(p, a) <= v
    ensures InCube(p, Upper(c, a, Greater(At(c.lo, a), v + 1))) <==> InCube(p, c) && At(p, a) > v
  {
  }

  /** t' is t after a reboot step switching c: a k-d tree with no nil
      child whose lit cubes are t's switched by the step. */
  ghost predicate Rebooted(t': Tree, t: Tree, on: bool, c: Cubo) {
    (forall p :: In(p, t') <==> Switch(on, In(p, t), InCube(p, c))) && Kd(t') && Full(t')
  }

  /** reboot switches exactly the cubes of c, and keeps the k-d invariant,
      the absence of nil children and, for a valid c, valid leaves. */
  lemma {:induction false} RebootCubes(t: Tree, on: bool, c: Cubo)
    requires Kd(t) && Full(t)
    ensures Rebooted(Reboot(t, on, c), t, on, c)
    ensures Valid(t) && Ok(c) ==> Valid(Reboot(t, on, c))
    decreases t, 2
  {
    match t
    case Nil =>
    case Leaf(n) =>
      if on {
        AddCubes(n, c);
        if Ok(n) && Ok(c) {
          AddValid(n, c);
        }
      } else {
        DelCubes(n, c);
        if Ok(n) {
          DelValid(n, c);
        }
      }
    case Split(a, v, l, r) =>
      RebootSplit(a, v, l, r, on, c);
  }

  /** The same for an internal node. */
  lemma {:induction false} RebootSplit(a: Axis, v: int, l: Tree, r: Tree, on: bool, c: Cubo)
    requires Kd(Split(a, v, l, r)) && Full(Split(a, v, l, r))
    ensures Rebooted(Reboot(Split(a, v, l, r), on, c), Split(a, v, l, r), on, c)
    ensures Valid(Split(a, v, l, r)) && Ok(c) ==> Valid(Reboot(Split(a, v, l, r), on, c))
    decreases Split(a, v, l, r), 1
  {
    var lc := Lower(c, a, Lesser(At(c.hi, a), v));
    var rc := Upper(c, a, Greater(At(c.lo, a), v + 1));
    RebootSide(l, on, lc);
    RebootSide(r, on, rc);
    JoinSwitch(a, v, l, r, Side(l, on, lc), Side(r, on, rc), on, c);
  }

  /** Rebooting both sides with their parts of c reboots the node with c. */
  lemma JoinSwitch(a: Axis, v: int, l: Tree, r: Tree, l': Tree, r': Tree, on: bool, c: Cubo)
    requires Kd(Split(a, v, l, r))
    requires var lc := Lower(c, a, Lesser(At(c.hi, a), v));
      Rebooted(l', l, on, lc) && forall p :: In(p, l') ==> In(p, l) || InCube(p, lc)
    requires var rc := Upper(c, a, Greater(At(c.lo, a), v + 1));
      Rebooted(r', r, on, rc) && forall p :: In(p, r') ==> In(p, r) || InCube(p, rc)
    ensures Rebooted(Join(a, v, l', r'), Split(a, v, l, r), on, c)
  {
    forall p {
      Clip(p, c, a, v);
    }
    JoinKd(a, v, l', r');
  }

  /** The same for one side of an internal node. */
  lemma {:induction false} RebootSide(t: Tree, on: bool, h: Cubo)
    requires Kd(t) && Full(t)
    ensures Rebooted(Side(t, on, h), t, on, h)
    ensures forall p :: In(p, Side(t, on, h)) ==> In(p, t) || InCube(p, h)
    ensures Valid(t) ==> Valid(Side(t, on, h))
    decreases t, 3
  {
    if Ok(h) {
      RebootCubes(t, on, h);
    } else {
      forall p ensures !InCube(p, h) {
        if InCube(p, h) {
          NonEmpty(p, h);
        }
      }
    }
  }

  /** recount: the volumes of the leaves, summed over the tree. */
  function Recount(t: Tree): int {
    match t
    case Nil => 0
    case Leaf(c) => Vol(c)
    case Split(_, _, l, r) => Recount(l) + Recount(r)
  }

  /** The leaves' cubos, left to right. */
  function Leaves(t: Tree): seq<Cubo> {
    match t
    case Nil => []
    case Leaf(c) => [c]
    case Split(_, _, l, r) => Leaves(l) + Leaves(r)
  }

  /** The volumes of a list of cubos, added up. */
  function SumVol(cs: seq<Cubo>): int {
    if cs == [] then 0 else Vol(cs[0]) + SumVol(cs[1..])
  }

  lemma {:induction false} SumVolAppend(a: seq<Cubo>, b: seq<Cubo>)
    ensures SumVol(a + b) == SumVol(a) + SumVol(b)
  {
    if a == [] {
      assert a + b == b;
    } else {
      assert (a + b)[0] == a[0] && (a + b)[1..] == a[1..] + b;
      SumVolAppend(a[1..], b);
    }
  }

  /** recount sums the leaf volumes. */
  lemma {:induction false} RecountLeaves(t: Tree)
    ensures Recount(t) == SumVol(Leaves(t))
  {
    match t
    case Nil =>
    case Leaf(c) =>
      assert SumVol([c]) == Vol(c) + SumVol([]);
    case Split(_, _, l, r) =>
      RecountLeaves(l);
      RecountLeaves(r);
      SumVolAppend(Leaves(l), Leaves(r));
  }

  /** Some cubo of the list holds p. */
  predicate AnyHolds(p: Vec, cs: seq<Cubo>) {
    exists i :: 0 <= i < |cs| && InCube(p, cs[i])
  }

  /** A cubo of a joined list holds p exactly when one of either part does. */
  lemma AnyHoldsAppend(p: Vec, a: seq<Cubo>, b: seq<Cubo>)
    ensures AnyHolds(p, a + b) <==> AnyHolds(p, a) || AnyHolds(p, b)
  {
    var ab := a + b;
    if AnyHolds(p, a) {
      var i :| 0 <= i < |a| && InCube(p, a[i]);
      assert ab[i] == a[i];
    }
    if AnyHolds(p, b) {
      var i :| 0 <= i < |b| && InCube(p, b[i]);
      assert ab[|a| + i] == b[i];
    }
    if AnyHolds(p, ab) {
      var i :| 0 <= i < |ab| && InCube(p, ab[i]);
      if i < |a| {
        assert ab[i] == a[i];
      } else {
        assert ab[i] == b[i - |a|];
      }
    }
  }

  /** The lit cubes are the cubes of the leaves. */
  lemma {:induction false} LeavesLit(t: Tree, p: Vec)
    ensures In(p, t) <==> AnyHolds(p, Leaves(t))
  {
    match t
    case Nil =>
    case Leaf(c) =>
      assert Leaves(t) == [c];
      if InCube(p, c) {
        assert InCube(p, Leaves(t)[0]);
      }
    case Split(_, _, l, r) =>
      LeavesLit(l, p);
      LeavesLit(r, p);
      assert Leaves(t) == Leaves(l) + Leaves(r);
      AnyHoldsAppend(p, Leaves(l), Leaves(r));
  }

  /** A leaf's cubes are lit. */
  lemma {:induction false} LeafLit(t: Tree, i: nat, p: Vec)
    requires i < |Leaves(t)| && InCube(p, Leaves(t)[i])
    ensures In(p, t)
  {
    LeavesLit(t, p);
  }

  /** In a k-d tree no cube is in two leaves: recount counts each lit cube
      once. */
  lemma {:induction false} LeavesDisjoint(t: Tree, i: nat, j: nat, p: Vec)
    requires Kd(t) && i < j < |Leaves(t)|
    ensures !(InCube(p, Leaves(t)[i]) && InCube(p, Leaves(t)[j]))
  {
    match t
    case Nil =>
    case Leaf(c) =>
    case Split(a, v, l, r) =>
      var n := |Leaves(l)|;
      if j < n {
        assert Leaves(t)[i] == Leaves(l)[i] && Leaves(t)[j] == Leaves(l)[j];
        LeavesDisjoint(l, i, j, p);
      } else if n <= i {
        assert Leaves(t)[i] == Leaves(r)[i - n] && Leaves(t)[j] == Leaves(r)[j - n];
        LeavesDisjoint(r, i - n, j - n, p);
      } else {
        assert Leaves(t)[i] == Leaves(l)[i] && Leaves(t)[j] == Leaves(r)[j - n];
        if InCube(p, Leaves(l)[i]) && InCube(p, Leaves(r)[j - n]) {
          LeafLit(l, i, p);
          LeafLit(r, j - n, p);
          assert false;
        }
      }
  }

  /** One line of the input: on or off, and the cubo it switches. */
  datatype Step = Step(on: bool, c: Cubo)

  /** The initialization region of part 1: -50..50 on every axis. */
  const Region := Cubo(Vec(-50, -50, -50), Vec(50, 50, 50))

  /** p is lit after the steps: the last step whose cubo holds p turns on. */
  ghost predicate LastOn(steps: seq<Step>, p: Vec) {
    exists i :: 0 <= i < |steps| && steps[i].on && InCube(p, steps[i].c) &&
      forall j :: i < j < |steps| ==> !InCube(p, steps[j].c)
  }

  /** One more step switches p when its cubo holds p and leaves it otherwise. */
  lemma LastOnStep(steps: seq<Step>, s: Step, p: Vec)
    ensures LastOn(steps + [s], p) <==> Switch(s.on, LastOn(steps, p), InCube(p, s.c))
  {
    var q := steps + [s];
    if InCube(p, s.c) {
      assert q[|steps|] == s;
    } else {
      if LastOn(steps, p) {
        var i :| 0 <= i < |steps| && steps[i].on && InCube(p, steps[i].c) &&
          forall j :: i < j < |steps| ==> !InCube(p, steps[j].c);
        assert q[i] == steps[i];
        forall j | i < j < |q| ensures !InCube(p, q[j].c) {
          if j < |steps| {
            assert q[j] == steps[j];
          }
        }
      }
      if LastOn(q, p) {
        var i :| 0 <= i < |q| && q[i].on && InCube(p, q[i].c) && forall j :: i < j < |q| ==> !InCube(p, q[j].c);
        assert i < |steps| && q[i] == steps[i];
        forall j | i < j < |steps| ensures !InCube(p, steps[j].c) {
          assert q[j] == steps[j];
        }
      }
    }
  }

  /** The part 2 tree after the steps: every step reboots it. */
  function Run(steps: seq<Step>): Tree {
    if steps == [] then Nil
    else
      var s := steps[|steps| - 1];
      Reboot(Run(steps[..|steps| - 1]), s.on, s.c)
  }

  /** The part 1 tree after the steps: a step reboots it with its cubo
      trimmed to the region, when that trim is valid. */
  function RunRegion(steps: seq<Step>): Tree {
    if steps == [] then Nil
    else
      var s := steps[|steps| - 1];
      var t := RunRegion(steps[..|steps| - 1]);
      var sub := Trim(s.c, Region);
      if Ok(sub) then Reboot(t, s.on, sub) else t
  }

  /** The steps' cubos are all valid, as the input's are. */
  predicate Proper(steps: seq<Step>) {
    forall i :: 0 <= i < |steps| ==> Ok(steps[i].c)
  }

  /** Part 2's tree lights exactly the cubes whose last step is on. */
  lemma {:induction false} RunLit(steps: seq<Step>)
    ensures Kd(Run(steps)) && Full(Run(steps))
    ensures forall p :: In(p, Run(steps)) <==> LastOn(steps, p)
    ensures Proper(steps) ==> Valid(Run(steps))
  {
    if steps != [] {
      var prior, s := steps[..|steps| - 1], steps[|steps| - 1];
      assert steps == prior + [s];
      RunLit(prior);
      RebootCubes(Run(prior), s.on, s.c);
      forall p ensures In(p, Run(steps)) <==> LastOn(steps, p) {
        LastOnStep(prior, s, p);
      }
    }
  }

  /** Part 1's tree lights exactly the cubes of the region whose last step
      is on, and its leaves are valid. */
  lemma {:induction false} RunRegionLit(steps: seq<Step>)
    ensures Kd(RunRegion(steps)) && Full(RunRegion(steps)) && Valid(RunRegion(steps))
    ensures forall p :: In(p, RunRegion(steps)) <==> InCube(p, Region) && LastOn(steps, p)
  {
    if steps != [] {
      var prior, s := steps[..|steps| - 1], steps[|steps| - 1];
      assert steps == prior + [s];
      RunRegionLit(prior);
      var sub := Trim(s.c, Region);
      if Ok(sub) {
        RebootCubes(RunRegion(prior), s.on, sub);
      }
      forall p ensures In(p, RunRegion(steps)) <==> InCube(p, Region) && LastOn(steps, p) {
        LastOnStep(prior, s, p);
        if !Ok(sub) && InCube(p, sub) {
          NonEmpty(p, sub);
        }
      }
    }
  }

  /** main: every step reboots both trees, part 1's with the step trimmed
      to the region; the answers are the two recounts. */
  method Reboots(steps: seq<Step>) returns (p1: Tree, p2: Tree, part1: int, part2: int)
    ensures forall p :: In(p, p1) <==> InCube(p, Region) && LastOn(steps, p)
    ensures forall p :: In(p, p2) <==> LastOn(steps, p)
    ensures Kd(p1) && Kd(p2) && Valid(p1) && (Proper(steps) ==> Valid(p2))
    ensures part1 == SumVol(Leaves(p1)) && part2 == SumVol(Leaves(p2))
  {
    p1, p2 := Nil, Nil;
    for i := 0 to |steps|
      invariant p1 == RunRegion(steps[..i]) && p2 == Run(steps[..i])
    {
      assert steps[..i + 1][..i] == steps[..i];
      var s := steps[i];
      var sub := Trim(s.c, Region);
      if Ok(sub) {
        p1 := Reboot(p1, s.on, sub);
      }
      p2 := Reboot(p2, s.on, s.c);
    }
    assert steps[..|steps|] == steps;
    RunRegionLit(steps);
    RunLit(steps);
    part1, part2 := Recount(p1), Recount(p2);
    RecountLeaves(p1);
    RecountLeaves(p2);
  }
}
