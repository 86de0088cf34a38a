/** Lens library (2023/15/aoc15.go): the HASH of a step, the parsing of a
    step into an operation, and a box that first queues its operations and
    then lays out its lenses in one pass.

    The box does not apply the steps one by one: enqueue records the last
    removal of each label and keeps the insertions, and process keeps only
    the insertions made after their label's last removal. BoxMatchesSteps
    proves that this gives the lenses that applying the steps in order
    leaves in the box.
 */
module Lenses {
  import Decimal

  /** HASH: h := ((h + c) * 17) & 0xff for each character; the mask is the
      remainder by 256 on these non-negative values. */
  function Hash(s: string): (h: int)
    ensures 0 <= h < 256
  {
    if |s| == 0 then 0 else ((Hash(s[..|s| - 1]) + s[|s| - 1] as int) * 17) % 256
  }

  /** The and with 0xff keeps the remainder by 256 of a non-negative word. */
  lemma MaskIsMod(x: bv64)
    ensures x & 0xff == x % 256
  {
  }

  lemma HashExample()
    ensures Hash("") == 0 && Hash("H") == 200 && Hash("HASH") == 52
  {
    assert "HASH"[..3] == "HAS" && "HAS"[..2] == "HA" && "HA"[..1] == "H" && "H"[..0] == "";
  }

  /** A step: a label with its position in the line, and the focal length
      (0 for a removal). */
  datatype Op = Op(name: string, idx: int, val: int)

  /** The shapes of step mkop reads: "label-" or "label=digits", the label
      free of '='. */
  predicate WellFormed(s: string) {
    |s| > 0 &&
    (s[|s| - 1] == '-' ||
     exists k :: 0 <= k < |s| && s[k] == '=' && NoEquals(s[..k]) && Decimal.AllDigits(s[k + 1..]))
  }

  predicate NoEquals(s: string) {
    forall i :: 0 <= i < |s| ==> s[i] != '='
  }

  /** The position of the first '=' of s, or |s|. */
  function FirstEquals(s: string): (k: nat)
    ensures k <= |s| && NoEquals(s[..k]) && (k < |s| ==> s[k] == '=')
  {
    if |s| == 0 then 0
    else if s[0] == '=' then 0
    else
      var k := FirstEquals(s[1..]);
      assert s[..k + 1] == [s[0]] + s[1..][..k];
      k + 1
  }

  /** mkop: a trailing '-' removes the label; otherwise the text after '='
      is the focal length. */
  function MakeOp(i: int, s: string): (op: Op)
    requires WellFormed(s)
    ensures op.idx == i
    ensures s[|s| - 1] == '-' ==> op == Op(s[..|s| - 1], i, 0)
    ensures s[|s| - 1] != '-' ==>
      exists k :: 0 <= k < |s| && s[..k] == op.name && s[k] == '=' && Decimal.AllDigits(s[k + 1..]) &&
        op.val == Decimal.Atoi(s[k + 1..])
  {
    if s[|s| - 1] == '-' then Op(s[..|s| - 1], i, 0)
    else
      var k := FirstEquals(s);
      EqualsFound(s, k);
      Op(s[..k], i, Decimal.Atoi(s[k + 1..]))
  }

  /** In a well-formed insertion step the first '=' is the separator. */
  lemma EqualsFound(s: string, k: nat)
    requires WellFormed(s) && s[|s| - 1] != '-' && k == FirstEquals(s)
    ensures k < |s| && Decimal.AllDigits(s[k + 1..])
  {
    var j :| 0 <= j < |s| && s[j] == '=' && NoEquals(s[..j]) && Decimal.AllDigits(s[j + 1..]);
    FirstEqualsAt(s, j);
  }

  lemma {:induction false} FirstEqualsAt(s: string, j: int)
    requires 0 <= j < |s| && s[j] == '=' && NoEquals(s[..j])
    ensures FirstEquals(s) == j
  {
    if j > 0 {
      assert s[0] == s[..j][0];
      assert s[1..][..j - 1] == s[1..j];
      assert s[1..][j - 1] == s[j];
      FirstEqualsAt(s[1..], j - 1);
    }
  }

  /** mkop reads back the label and the focal length it was given. */
  lemma MakeOpInverts(name: string, v: nat)
    requires NoEquals(name) && v < Decimal.Limit
    ensures WellFormed(name + "=" + Decimal.Itoa(v))
    ensures MakeOp(0, name + "=" + Decimal.Itoa(v)) == Op(name, 0, v)
    ensures MakeOp(0, name + "-") == Op(name, 0, 0)
  {
    var digits := Decimal.Itoa(v);
    var s := name + "=" + digits;
    assert s[..|name|] == name && s[|name|] == '=' && s[|name| + 1..] == digits;
    assert digits[|digits| - 1] != '-';
    assert s[|s| - 1] == digits[|digits| - 1];
    var k := FirstEquals(s);
    assert (name + "-")[..|name|] == name;
  }

  /** The queue of one box. */
  datatype Queue = Queue(del: map<string, int>, add: seq<Op>, idx: int)

  function NewQueue(i: int): Queue {
    Queue(map[], [], i)
  }

  /** op is not undone by a recorded removal of its label. */
  predicate Kept(del: map<string, int>, op: Op) {
    op.name !in del || op.idx > del[op.name]
  }

  /** enqueue: a removal only records its position; an insertion is queued
      unless a later removal of its label is already recorded. */
  function Enqueue(q: Queue, op: Op): (q': Queue)
    ensures q'.idx == q.idx
    ensures op.val == 0 ==> q'.add == q.add && q'.del == q.del[op.name := op.idx]
    ensures op.val != 0 ==> q'.del == q.del && q'.add == q.add + (if Kept(q.del, op) then [op] else [])
  {
    if op.val == 0 then Queue(q.del[op.name := op.idx], q.add, q.idx)
    else if Kept(q.del, op) then Queue(q.del, q.add + [op], q.idx)
    else q
  }

  function EnqueueAll(q: Queue, ops: seq<Op>): Queue {
    if |ops| == 0 then q else Enqueue(EnqueueAll(q, ops[..|ops| - 1]), ops[|ops| - 1])
  }

  /** index: the first slot holding the label, or -1. */
  function Index(slots: seq<Op>, name: string): (i: int)
    ensures -1 <= i < |slots|
    ensures i >= 0 ==> slots[i].name == name && forall j :: 0 <= j < i ==> slots[j].name != name
    ensures i == -1 ==> forall j :: 0 <= j < |slots| ==> slots[j].name != name
  {
    if |slots| == 0 then -1
    else if slots[0].name == name then 0
    else
      var i := Index(slots[1..], name);
      if i == -1 then -1 else i + 1
  }

  /** The body of process's first loop: a label already in a slot gets the
      new focal length in place; a new label goes at the end. */
  function Place(slots: seq<Op>, op: Op): seq<Op> {
    var i := Index(slots, op.name);
    if i >= 0 then slots[i := slots[i].(val := op.val)] else slots + [op]
  }

  /** Process's first loop, over the queued insertions that survive the
      recorded removals. */
  function Layout(del: map<string, int>, add: seq<Op>): seq<Op> {
    if |add| == 0 then []
    else
      var slots := Layout(del, add[..|add| - 1]);
      if Kept(del, add[|add| - 1]) then Place(slots, add[|add| - 1]) else slots
  }

  /** The focusing power of the slots: (box + 1) * (slot + 1) * focal
      length, summed over the slots with a label. */
  function Power(box: int, slots: seq<Op>): int {
    if |slots| == 0 then 0
    else
      var k := |slots| - 1;
      Power(box, slots[..k]) + (if slots[k].name != "" then (box + 1) * (k + 1) * slots[k].val else 0)
  }

  /** process: lay out the lenses, then add (box + 1) * (slot + 1) * focal
      length over the slots. */
  method Process(q: Queue) returns (sum: int)
    ensures sum == Power(q.idx, Layout(q.del, q.add))
  {
    var slots: seq<Op> := [];
    var k := 0;
    while k < |q.add|
      invariant 0 <= k <= |q.add| && slots == Layout(q.del, q.add[..k])
    {
      var op := q.add[k];
      assert q.add[..k + 1][..k] == q.add[..k];
      if Kept(q.del, op) {
        var i := Index(slots, op.name);
        if i >= 0 {
          slots := slots[i := slots[i].(val := op.val)];
        } else {
          slots := slots + [op];
        }
      }
      k := k + 1;
    }
    assert q.add[..|q.add|] == q.add;
    sum := 0;
    var i := 0;
    while i < |slots|
      invariant 0 <= i <= |slots| && sum == Power(q.idx, slots[..i])
    {
      assert slots[..i + 1][..i] == slots[..i];
      if slots[i].name != "" {
        sum := sum + (q.idx + 1) * (i + 1) * slots[i].val;
      }
      i := i + 1;
    }
    assert slots[..|slots|] == slots;
  }

  // The reference: the box worked step by step.

  /** Drop the lens with this label. */
  function Remove(box: seq<Op>, name: string): (r: seq<Op>)
    ensures |r| <= |box|
  {
    if |box| == 0 then []
    else (if box[0].name == name then [] else [box[0]]) + Remove(box[1..], name)
  }

  /** One step: a removal drops the label, an insertion replaces its focal
      length in place or adds the lens at the back. */
  function Step(box: seq<Op>, op: Op): seq<Op> {
    if op.val == 0 then Remove(box, op.name) else Place(box, op)
  }

  function Steps(ops: seq<Op>): seq<Op> {
    if |ops| == 0 then [] else Step(Steps(ops[..|ops| - 1]), ops[|ops| - 1])
  }

  /** No label is in two slots. */
  predicate Distinct(box: seq<Op>) {
    forall i, j :: 0 <= i < j < |box| ==> box[i].name != box[j].name
  }

  /** The positions of the steps increase along the line. */
  predicate Increasing(ops: seq<Op>) {
    forall i, j :: 0 <= i < j < |ops| ==> ops[i].idx < ops[j].idx
  }

  // The proof.

  lemma PlaceCons(h: Op, t: seq<Op>, op: Op)
    ensures Place([h] + t, op) ==
      if h.name == op.name then [h.(val := op.val)] + t else [h] + Place(t, op)
  {
    var b := [h] + t;
    assert b[1..] == t;
    if h.name != op.name {
      var i := Index(t, op.name);
      if i >= 0 {
        assert Index(b, op.name) == i + 1;
        assert b[i + 1 := b[i + 1].(val := op.val)] == [h] + t[i := t[i].(val := op.val)];
      }
    }
  }

  lemma {:induction false} PlaceDistinct(box: seq<Op>, op: Op)
    requires Distinct(box)
    ensures Distinct(Place(box, op))
  {
    var i := Index(box, op.name);
    if i >= 0 {
      var r := Place(box, op);
      assert forall j :: 0 <= j < |box| ==> r[j].name == box[j].name;
    }
  }

  lemma {:induction false} RemoveSnoc(box: seq<Op>, x: Op, name: string)
    ensures Remove(box + [x], name) == Remove(box, name) + (if x.name == name then [] else [x])
    decreases |box|
  {
    if |box| == 0 {
      assert Remove([x], name) == (if x.name == name then [] else [x]) + Remove([], name);
    } else {
      assert (box + [x])[1..] == box[1..] + [x];
      RemoveSnoc(box[1..], x, name);
    }
  }

  lemma {:induction false} RemoveAbsent(box: seq<Op>, name: string)
    requires forall j :: 0 <= j < |box| ==> box[j].name != name
    ensures Remove(box, name) == box
    decreases |box|
  {
    if |box| > 0 {
      RemoveAbsent(box[1..], name);
    }
  }

  /** Removing a label after placing it is removing it. */
  lemma {:induction false} RemovePlaceSame(box: seq<Op>, op: Op)
    ensures Remove(Place(box, op), op.name) == Remove(box, op.name)
    decreases |box|
  {
    if |box| == 0 {
      assert Place(box, op) == [op];
      assert Remove([op], op.name) == [] + Remove([], op.name);
    } else {
      var h, t := box[0], box[1..];
      assert box == [h] + t;
      PlaceCons(h, t, op);
      if h.name == op.name {
        assert ([h.(val := op.val)] + t)[1..] == t;
      } else {
        RemovePlaceSame(t, op);
        assert ([h] + Place(t, op))[1..] == Place(t, op);
      }
    }
  }

  /** Removing one label and placing another commute. */
  lemma {:induction false} RemovePlaceOther(box: seq<Op>, op: Op, name: string)
    requires op.name != name
    ensures Remove(Place(box, op), name) == Place(Remove(box, name), op)
    decreases |box|
  {
    if |box| == 0 {
      assert Place(box, op) == [op];
      assert Remove([op], name) == [op] + Remove([], name);
    } else {
      var h, t := box[0], box[1..];
      assert box == [h] + t;
      PlaceCons(h, t, op);
      if h.name == op.name {
        var b := [h.(val := op.val)] + t;
        assert b[1..] == t;
        assert Remove(b, name) == [h.(val := op.val)] + Remove(t, name);
        assert Remove(box, name) == [h] + Remove(t, name);
        PlaceCons(h, Remove(t, name), op);
      } else {
        RemovePlaceOther(t, op, name);
        assert ([h] + Place(t, op))[1..] == Place(t, op);
        if h.name == name {
          assert Remove(box, name) == Remove(t, name);
        } else {
          assert Remove(box, name) == [h] + Remove(t, name);
          PlaceCons(h, Remove(t, name), op);
        }
      }
    }
  }

  /** The insertions of ops, in order. */
  function Inserts(ops: seq<Op>): seq<Op> {
    if |ops| == 0 then []
    else Inserts(ops[..|ops| - 1]) + (if ops[|ops| - 1].val != 0 then [ops[|ops| - 1]] else [])
  }

  /** The position of the last removal of each label. */
  function Removals(ops: seq<Op>): map<string, int> {
    if |ops| == 0 then map[]
    else
      var m := Removals(ops[..|ops| - 1]);
      if ops[|ops| - 1].val == 0 then m[ops[|ops| - 1].name := ops[|ops| - 1].idx] else m
  }

  /** Recorded removals are earlier than any position above all of ops. */
  lemma {:induction false} RemovalsBelow(ops: seq<Op>, bound: int)
    requires forall i :: 0 <= i < |ops| ==> ops[i].idx < bound
    ensures forall n :: n in Removals(ops) ==> Removals(ops)[n] < bound
  {
    if |ops| > 0 {
      RemovalsBelow(ops[..|ops| - 1], bound);
    }
  }

  /** Under increasing positions the queue holds every insertion and the
      last removal of every label. */
  lemma {:induction false} QueueContents(i: int, ops: seq<Op>)
    requires Increasing(ops)
    ensures EnqueueAll(NewQueue(i), ops) == Queue(Removals(ops), Inserts(ops), i)
  {
    if |ops| > 0 {
      var p, op := ops[..|ops| - 1], ops[|ops| - 1];
      QueueContents(i, p);
      RemovalsBelow(p, op.idx);
    }
  }

  /** The insertions of a label all come before its recorded removal. */
  lemma {:induction false} InsertsBefore(ops: seq<Op>, bound: int)
    requires forall i :: 0 <= i < |ops| ==> ops[i].idx < bound
    ensures forall i :: 0 <= i < |Inserts(ops)| ==> Inserts(ops)[i].idx < bound
  {
    if |ops| > 0 {
      InsertsBefore(ops[..|ops| - 1], bound);
    }
  }

  /** A later removal of one label takes its lenses out of the layout. */
  lemma {:induction false} LayoutRemoves(del: map<string, int>, add: seq<Op>, name: string, at: int)
    requires forall i :: 0 <= i < |add| ==> add[i].idx < at
    ensures Distinct(Layout(del, add))
    ensures Layout(del[name := at], add) == Remove(Layout(del, add), name)
  {
    if |add| > 0 {
      var p, op := add[..|add| - 1], add[|add| - 1];
      var slots := Layout(del, p);
      LayoutRemoves(del, p, name, at);
      if Kept(del, op) {
        PlaceDistinct(slots, op);
        if op.name == name {
          RemovePlaceSame(slots, op);
        } else {
          RemovePlaceOther(slots, op, name);
        }
      }
    } else {
      assert Remove([], name) == [];
    }
  }

  /** The layout of a queue built from the steps is what the steps leave in
      the box. */
  lemma {:induction false} LayoutIsSteps(ops: seq<Op>)
    requires Increasing(ops)
    ensures Layout(Removals(ops), Inserts(ops)) == Steps(ops)
  {
    if |ops| > 0 {
      var p, op := ops[..|ops| - 1], ops[|ops| - 1];
      assert Increasing(p);
      LayoutIsSteps(p);
      if op.val == 0 {
        InsertsBefore(p, op.idx);
        assert Inserts(ops) == Inserts(p);
        LayoutRemoves(Removals(p), Inserts(p), op.name, op.idx);
      } else {
        RemovalsBelow(p, op.idx);
        assert Inserts(ops)[..|Inserts(ops)| - 1] == Inserts(p);
      }
    }
  }

  /** The box's lenses after enqueue and process's first loop are those that
      applying the steps in order leaves. */
  lemma BoxMatchesSteps(i: int, ops: seq<Op>)
    requires Increasing(ops)
    ensures var q := EnqueueAll(NewQueue(i), ops); Layout(q.del, q.add) == Steps(ops)
  {
    QueueContents(i, ops);
    LayoutIsSteps(ops);
  }

  /** Stepping keeps one slot per label. */
  lemma {:induction false} StepsDistinct(ops: seq<Op>)
    ensures Distinct(Steps(ops))
  {
    if |ops| > 0 {
      var p, op := ops[..|ops| - 1], ops[|ops| - 1];
      StepsDistinct(p);
      if op.val == 0 {
        RemoveKeepsDistinct(Steps(p), op.name);
      } else {
        PlaceDistinct(Steps(p), op);
      }
    }
  }

  lemma {:induction false} RemoveKeepsDistinct(box: seq<Op>, name: string)
    requires Distinct(box)
    ensures Distinct(Remove(box, name)) && forall j :: 0 <= j < |Remove(box, name)| ==> Remove(box, name)[j] in box[..]
    decreases |box|
  {
    if |box| > 0 {
      RemoveKeepsDistinct(box[1..], name);
      var r := Remove(box[1..], name);
      forall j | 0 <= j < |r|
        ensures r[j].name != box[0].name
      {
        var k :| 0 <= k < |box[1..]| && box[1..][k] == r[j];
        assert box[k + 1] == r[j];
      }
    }
  }

  /** A replacement keeps its slot: placing a label that is already in the
      box changes only that slot's focal length. */
  lemma PlaceInPlace(box: seq<Op>, op: Op, i: int)
    requires 0 <= i < |box| && box[i].name == op.name && Distinct(box)
    ensures Place(box, op) == box[i := box[i].(val := op.val)]
  {
  }
}
