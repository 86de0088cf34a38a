/** Fresh-ingredient ranges (2025/5/aoc5.go): merging closed integer spans
    into a disjoint cover, and an interval tree answering "which spans hold v".

    The source keeps the tree in parallel index arrays (start, end, maxEnd,
    left, right, with -1 for "no child"); here the same tree is an inductive
    datatype, so a child index of -1 is `Nil`.
 */
module Spans {

  /** A closed span [start, end]. */
  datatype Span = Span(start: int, end: int)

  predicate ValidSpan(s: Span) {
    s.start <= s.end
  }

  predicate AllValid(ss: seq<Span>) {
    forall k :: 0 <= k < |ss| ==> ValidSpan(ss[k])
  }

  /** Number of integers in a span: end - start + 1. */
  function Width(s: Span): int {
    s.end - s.start + 1
  }

  predicate Contains(s: Span, v: int) {
    s.start <= v <= s.end
  }

  /** The integers a span covers. */
  ghost function Range(s: Span): set<int> {
    set x | s.start <= x <= s.end && Contains(s, x)
  }

  /** The integers some span of ss covers. */
  ghost function Points(ss: seq<Span>): set<int> {
    if |ss| == 0 then {} else Range(ss[0]) + Points(ss[1..])
  }

  lemma {:induction false} PointsIn(ss: seq<Span>, x: int)
    ensures x in Points(ss) <==> exists k :: 0 <= k < |ss| && Contains(ss[k], x)
  {
    if |ss| > 0 {
      PointsIn(ss[1..], x);
      if x in Points(ss[1..]) {
        var k :| 0 <= k < |ss[1..]| && Contains(ss[1..][k], x);
        assert Contains(ss[k + 1], x);
      }
      if exists k :: 0 <= k < |ss| && Contains(ss[k], x) {
        var k :| 0 <= k < |ss| && Contains(ss[k], x);
        if k > 0 {
          assert Contains(ss[1..][k - 1], x);
        }
      }
    }
  }

  lemma {:induction false} RangeSize(s: Span)
    requires ValidSpan(s)
    ensures |Range(s)| == Width(s)
    decreases s.end - s.start
  {
    if s.start == s.end {
      assert Range(s) == {s.start};
    } else {
      var s' := Span(s.start, s.end - 1);
      RangeSize(s');
      assert Range(s) == Range(s') + {s.end};
    }
  }

  predicate SortedByStart(ss: seq<Span>) {
    forall i, j :: 0 <= i < j < |ss| ==> ss[i].start <= ss[j].start
  }

  /** Insertion of one span into a list sorted by start. */
  function InsertSorted(x: Span, ss: seq<Span>): (r: seq<Span>)
    requires SortedByStart(ss)
    ensures SortedByStart(r) && multiset(r) == multiset(ss) + multiset{x}
  {
    if |ss| == 0 || x.start <= ss[0].start then [x] + ss
    else
      var t := InsertSorted(x, ss[1..]);
      assert ss == [ss[0]] + ss[1..];
      assert forall k :: 0 <= k < |t| ==> ss[0].start <= t[k].start by {
        forall k | 0 <= k < |t| ensures ss[0].start <= t[k].start {
          assert t[k] in multiset(t);
        }
      }
      [ss[0]] + t
  }

  /** The sort by start that cover begins with (any order among equal
      starts: the merged cover does not depend on it). */
  function SortByStart(ss: seq<Span>): (r: seq<Span>)
    ensures SortedByStart(r) && multiset(r) == multiset(ss)
  {
    if |ss| == 0 then []
    else
      assert ss == [ss[0]] + ss[1..];
      InsertSorted(ss[0], SortByStart(ss[1..]))
  }

  /** The merge loop of cover: cur is the span being grown; a span starting
      no later than cur.end + 1 overlaps or touches it and is absorbed, any
      other one closes cur and becomes the new cur. */
  function Merge(cur: Span, rest: seq<Span>): seq<Span>
    decreases |rest|
  {
    if |rest| == 0 then [cur]
    else if rest[0].start <= cur.end + 1 then
      Merge(Span(cur.start, if rest[0].end > cur.end then rest[0].end else cur.end), rest[1..])
    else [cur] + Merge(rest[0], rest[1..])
  }

  /** Merged spans are valid, sorted, pairwise disjoint and not adjacent:
      each ends at least two before the next one starts. */
  predicate Separated(m: seq<Span>) {
    AllValid(m) && forall k :: 0 <= k < |m| - 1 ==> m[k].end + 1 < m[k + 1].start
  }

  lemma {:induction false} MergeSeparated(cur: Span, rest: seq<Span>)
    requires ValidSpan(cur) && AllValid(rest) && SortedByStart(rest)
    requires forall k :: 0 <= k < |rest| ==> cur.start <= rest[k].start
    ensures var m := Merge(cur, rest); |m| > 0 && m[0].start == cur.start && Separated(m)
    decreases |rest|
  {
    if |rest| > 0 {
      if rest[0].start <= cur.end + 1 {
        MergeSeparated(Span(cur.start, if rest[0].end > cur.end then rest[0].end else cur.end), rest[1..]);
      } else {
        MergeSeparated(rest[0], rest[1..]);
      }
    }
  }

  /** Merging keeps exactly the covered integers. */
  lemma {:induction false} MergePoints(cur: Span, rest: seq<Span>)
    requires ValidSpan(cur) && AllValid(rest) && SortedByStart(rest)
    requires forall k :: 0 <= k < |rest| ==> cur.start <= rest[k].start
    ensures Points(Merge(cur, rest)) == Points([cur] + rest)
    decreases |rest|
  {
    assert ([cur] + rest)[1..] == rest;
    if |rest| > 0 {
      if rest[0].start <= cur.end + 1 {
        var cur' := Span(cur.start, if rest[0].end > cur.end then rest[0].end else cur.end);
        MergePoints(cur', rest[1..]);
        assert ([cur'] + rest[1..])[1..] == rest[1..];
        assert Range(cur') == Range(cur) + Range(rest[0]);
      } else {
        MergePoints(rest[0], rest[1..]);
        assert ([rest[0]] + rest[1..]) == rest;
        assert ([cur] + Merge(rest[0], rest[1..]))[1..] == Merge(rest[0], rest[1..]);
      }
    }
  }

  function SumWidth(m: seq<Span>): int {
    if |m| == 0 then 0 else Width(m[0]) + SumWidth(m[1..])
  }

  lemma {:induction false} PointsAbove(m: seq<Span>, lo: int)
    requires forall k :: 0 <= k < |m| ==> lo <= m[k].start
    ensures forall x :: x in Points(m) ==> lo <= x
  {
    if |m| > 0 {
      PointsAbove(m[1..], lo);
    }
  }

  /** Over separated spans the widths add up to the number of covered integers. */
  lemma {:induction false} SeparatedCount(m: seq<Span>)
    requires Separated(m)
    ensures SumWidth(m) == |Points(m)|
  {
    if |m| > 0 {
      var t := m[1..];
      assert Separated(t);
      SeparatedCount(t);
      RangeSize(m[0]);
      if |t| > 0 {
        assert forall k :: 0 <= k < |t| ==> m[0].end + 1 < t[k].start by {
          forall k | 0 <= k < |t| ensures m[0].end + 1 < t[k].start {
            SeparatedStarts(m, 0, k + 1);
          }
        }
        PointsAbove(t, m[0].end + 1);
      }
      assert Range(m[0]) * Points(t) == {};
    }
  }

  lemma {:induction false} SeparatedStarts(m: seq<Span>, i: int, j: int)
    requires Separated(m) && 0 <= i < j < |m|
    ensures m[i].end + 1 < m[j].start
    decreases j - i
  {
    if j > i + 1 {
      SeparatedStarts(m, i + 1, j);
    }
  }

  /** The spans cover merges, in the order it closes them. */
  function Merged(spans: seq<Span>): seq<Span> {
    var s := SortByStart(spans);
    if |s| == 0 then [] else Merge(s[0], s[1..])
  }

  /** cover: the number of integers the spans cover, and the tree with the
      merged spans inserted in the order they close. */
  function Cover(t: Tree, spans: seq<Span>): (r: (int, Tree))
    ensures spans == [] ==> r == (0, t)
    ensures AllValid(spans) ==> r.0 == |Points(spans)|
    ensures AllValid(spans) ==> Separated(Merged(spans)) && Points(Merged(spans)) == Points(spans)
    ensures Elements(r.1) == Elements(t) + multiset(Merged(spans))
    ensures Valid(t) ==> Valid(r.1)
  {
    var m := Merged(spans);
    var proved := if AllValid(spans) then MergedCover(spans); true else true;
    (SumWidth(m), InsertAll(t, m))
  }

  lemma MergedCover(spans: seq<Span>)
    requires AllValid(spans)
    ensures Separated(Merged(spans)) && Points(Merged(spans)) == Points(spans)
    ensures SumWidth(Merged(spans)) == |Points(spans)|
  {
    var s := SortByStart(spans);
    if |s| > 0 {
      forall k | 0 <= k < |s| ensures ValidSpan(s[k]) && s[0].start <= s[k].start {
        assert s[k] in multiset(spans);
      }
      MergeSeparated(s[0], s[1..]);
      MergePoints(s[0], s[1..]);
      assert [s[0]] + s[1..] == s;
      PermutedPoints(spans, s);
      SeparatedCount(Merged(spans));
    } else {
      assert multiset(spans) == multiset{};
    }
  }

  /** Points depends only on the multiset of spans. */
  lemma PermutedPoints(a: seq<Span>, b: seq<Span>)
    requires multiset(a) == multiset(b)
    ensures Points(a) == Points(b)
  {
    forall x ensures x in Points(a) <==> x in Points(b) {
      PointsIn(a, x);
      PointsIn(b, x);
      if exists k :: 0 <= k < |a| && Contains(a[k], x) {
        var k :| 0 <= k < |a| && Contains(a[k], x);
        assert a[k] in multiset(b);
      }
      if exists k :: 0 <= k < |b| && Contains(b[k], x) {
        var k :| 0 <= k < |b| && Contains(b[k], x);
        assert b[k] in multiset(a);
      }
    }
  }

  /** The interval tree: a binary search tree on start, each node also
      holding the largest end in its subtree. */
  datatype Tree = Nil | Node(start: int, end: int, maxEnd: int, left: Tree, right: Tree)

  function Elements(t: Tree): multiset<Span> {
    match t
    case Nil => multiset{}
    case Node(s, e, _, l, r) => Elements(l) + multiset{Span(s, e)} + Elements(r)
  }

  function Max(a: int, b: int): int {
    if a < b then b else a
  }

  /** maxEnd of a subtree, or d for an empty one. */
  function MaxEndOr(t: Tree, d: int): int {
    if t.Nil? then d else t.maxEnd
  }

  /** Every span of t starts before b. */
  predicate StartsBelow(t: Tree, b: int) {
    t.Node? ==> t.start < b && StartsBelow(t.left, b) && StartsBelow(t.right, b)
  }

  /** Every span of t starts at b or later. */
  predicate StartsFrom(t: Tree, b: int) {
    t.Node? ==> b <= t.start && StartsFrom(t.left, b) && StartsFrom(t.right, b)
  }

  /** Every span of t ends at b or earlier. */
  predicate EndsBy(t: Tree, b: int) {
    t.Node? ==> t.end <= b && EndsBy(t.left, b) && EndsBy(t.right, b)
  }

  /** Left keys are smaller than the node's start, right keys not smaller
      (insert goes right on equality), and maxEnd is the largest of the
      node's end and its children's maxEnd. */
  predicate Valid(t: Tree) {
    match t
    case Nil => true
    case Node(s, e, m, l, r) =>
      Valid(l) && Valid(r) && StartsBelow(l, s) && StartsFrom(r, s) &&
      m == Max(e, Max(MaxEndOr(l, e), MaxEndOr(r, e)))
  }

  lemma {:induction false} StartsBelowElements(t: Tree, b: int)
    requires StartsBelow(t, b)
    ensures forall x :: x in Elements(t) ==> x.start < b
  {
    if t.Node? {
      StartsBelowElements(t.left, b);
      StartsBelowElements(t.right, b);
    }
  }

  lemma {:induction false} StartsFromElements(t: Tree, b: int)
    requires StartsFrom(t, b)
    ensures forall x :: x in Elements(t) ==> b <= x.start
  {
    if t.Node? {
      StartsFromElements(t.left, b);
      StartsFromElements(t.right, b);
    }
  }

  lemma {:induction false} EndsByElements(t: Tree, b: int)
    requires EndsBy(t, b)
    ensures forall x :: x in Elements(t) ==> x.end <= b
  {
    if t.Node? {
      EndsByElements(t.left, b);
      EndsByElements(t.right, b);
    }
  }

  lemma {:induction false} EndsByWeaken(t: Tree, b: int, b': int)
    requires EndsBy(t, b) && b <= b'
    ensures EndsBy(t, b')
  {
    if t.Node? {
      EndsByWeaken(t.left, b, b');
      EndsByWeaken(t.right, b, b');
    }
  }

  lemma {:induction false} MaxEndBounds(t: Tree)
    requires Valid(t) && t.Node?
    ensures EndsBy(t, t.maxEnd)
  {
    if t.left.Node? {
      MaxEndBounds(t.left);
      EndsByWeaken(t.left, t.left.maxEnd, t.maxEnd);
    }
    if t.right.Node? {
      MaxEndBounds(t.right);
      EndsByWeaken(t.right, t.right.maxEnd, t.maxEnd);
    }
  }

  /** maxEnd of a node is the largest end stored in its subtree. */
  lemma {:induction false} MaxEndIsMax(t: Tree)
    requires Valid(t) && t.Node?
    ensures forall x :: x in Elements(t) ==> x.end <= t.maxEnd
    ensures exists x :: x in Elements(t) && x.end == t.maxEnd
  {
    MaxEndBounds(t);
    EndsByElements(t, t.maxEnd);
    if t.maxEnd == t.end {
      assert Span(t.start, t.end) in Elements(t);
    } else if t.left.Node? && t.maxEnd == t.left.maxEnd {
      MaxEndIsMax(t.left);
      var x :| x in Elements(t.left) && x.end == t.left.maxEnd;
      assert x in Elements(t);
    } else {
      MaxEndIsMax(t.right);
      var x :| x in Elements(t.right) && x.end == t.right.maxEnd;
      assert x in Elements(t);
    }
  }

  /** insert: a BST descent by start (left when s < start), after which every
      node on the path has its maxEnd raised to e. */
  function Insert(t: Tree, s: int, e: int): (r: Tree)
    ensures r.Node? && r.maxEnd == (if t.Nil? then e else Max(t.maxEnd, e))
    ensures Elements(r) == Elements(t) + multiset{Span(s, e)}
  {
    match t
    case Nil => Node(s, e, e, Nil, Nil)
    case Node(s0, e0, m0, l, r) =>
      if s < s0 then Node(s0, e0, Max(m0, e), Insert(l, s, e), r)
      else Node(s0, e0, Max(m0, e), l, Insert(r, s, e))
  }

  lemma {:induction false} InsertBelow(t: Tree, s: int, e: int, b: int)
    requires StartsBelow(t, b) && s < b
    ensures StartsBelow(Insert(t, s, e), b)
  {
    if t.Node? {
      if s < t.start {
        InsertBelow(t.left, s, e, b);
      } else {
        InsertBelow(t.right, s, e, b);
      }
    }
  }

  lemma {:induction false} InsertFrom(t: Tree, s: int, e: int, b: int)
    requires StartsFrom(t, b) && b <= s
    ensures StartsFrom(Insert(t, s, e), b)
  {
    if t.Node? {
      if s < t.start {
        InsertFrom(t.left, s, e, b);
      } else {
        InsertFrom(t.right, s, e, b);
      }
    }
  }

  /** Raising one child's summary c to c' (e for an empty child, else
      Max(c, e)) raises the parent's summary to Max of it and e. */
  lemma MaxRaise(d: int, c: int, c': int, o: int, e: int)
    requires (c == d && c' == e) || c' == Max(c, e)
    ensures Max(Max(d, Max(c, o)), e) == Max(d, Max(c', o))
  {
  }

  /** Raising a node's maxEnd to e along with its left child's keeps it
      valid. */
  lemma GrowLeft(s0: int, e0: int, m0: int, l: Tree, r: Tree, l': Tree, e: int)
    requires Valid(Node(s0, e0, m0, l, r)) && Valid(l') && StartsBelow(l', s0)
    requires l'.Node? && l'.maxEnd == (if l.Nil? then e else Max(l.maxEnd, e))
    ensures Valid(Node(s0, e0, Max(m0, e), l', r))
  {
    MaxRaise(e0, MaxEndOr(l, e0), MaxEndOr(l', e0), MaxEndOr(r, e0), e);
  }

  /** Raising a node's maxEnd to e along with its right child's keeps it
      valid. */
  lemma GrowRight(s0: int, e0: int, m0: int, l: Tree, r: Tree, r': Tree, e: int)
    requires Valid(Node(s0, e0, m0, l, r)) && Valid(r') && StartsFrom(r', s0)
    requires r'.Node? && r'.maxEnd == (if r.Nil? then e else Max(r.maxEnd, e))
    ensures Valid(Node(s0, e0, Max(m0, e), l, r'))
  {
    MaxRaise(e0, MaxEndOr(r, e0), MaxEndOr(r', e0), MaxEndOr(l, e0), e);
    assert Max(MaxEndOr(l, e0), MaxEndOr(r, e0)) == Max(MaxEndOr(r, e0), MaxEndOr(l, e0));
    assert Max(MaxEndOr(l, e0), MaxEndOr(r', e0)) == Max(MaxEndOr(r', e0), MaxEndOr(l, e0));
  }

  /** insert keeps the search order on start and the maxEnd summaries. */
  lemma {:induction false} InsertValid(t: Tree, s: int, e: int)
    requires Valid(t)
    ensures Valid(Insert(t, s, e))
  {
    match t
    case Nil =>
    case Node(s0, e0, m0, l, r) =>
      if s < s0 {
        InsertValid(l, s, e);
        InsertBelow(l, s, e, s0);
        var l' := Insert(l, s, e);
        GrowLeft(s0, e0, m0, l, r, l', e);
        assert Insert(t, s, e) == Node(s0, e0, Max(m0, e), l', r);
      } else {
        InsertValid(r, s, e);
        InsertFrom(r, s, e, s0);
        var r' := Insert(r, s, e);
        GrowRight(s0, e0, m0, l, r, r', e);
        assert Insert(t, s, e) == Node(s0, e0, Max(m0, e), l, r');
      }
  }

  function InsertAll(t: Tree, m: seq<Span>): (r: Tree)
    ensures Elements(r) == Elements(t) + multiset(m)
    ensures Valid(t) ==> Valid(r)
    decreases |m|
  {
    if |m| == 0 then t
    else
      assert m == [m[0]] + m[1..];
      var proved := if Valid(t) then InsertValid(t, m[0].start, m[0].end); true else true;
      InsertAll(Insert(t, m[0].start, m[0].end), m[1..])
  }

  function Size(t: Tree): nat {
    match t
    case Nil => 0
    case Node(_, _, _, l, r) => 1 + Size(l) + Size(r)
  }

  /** The spans query collects at v, in the order its stack visits them:
      the node, then its right subtree (pushed last, popped first), then
      its left. A left child is skipped when its maxEnd is below v, a right
      child when the node starts after v. */
  function QueryFrom(t: Tree, v: int): seq<Span>
    decreases Size(t)
  {
    match t
    case Nil => []
    case Node(s, e, _, l, r) =>
      (if s <= v <= e then [Span(s, e)] else []) +
      (if r.Node? && s <= v then QueryFrom(r, v) else []) +
      (if l.Node? && l.maxEnd >= v then QueryFrom(l, v) else [])
  }

  /** The stored spans holding v, with their multiplicities (see HoldingIs). */
  function Holding(t: Tree, v: int): multiset<Span> {
    match t
    case Nil => multiset{}
    case Node(s, e, _, l, r) =>
      (if s <= v <= e then multiset{Span(s, e)} else multiset{}) + Holding(r, v) + Holding(l, v)
  }

  lemma {:induction false} HoldingIs(t: Tree, v: int)
    ensures forall x :: Holding(t, v)[x] == if Contains(x, v) then Elements(t)[x] else 0
  {
    if t.Node? {
      HoldingIs(t.left, v);
      HoldingIs(t.right, v);
    }
  }

  lemma {:induction false} HoldingNoneAbove(t: Tree, v: int)
    requires StartsFrom(t, v + 1)
    ensures Holding(t, v) == multiset{}
  {
    if t.Node? {
      HoldingNoneAbove(t.left, v);
      HoldingNoneAbove(t.right, v);
    }
  }

  lemma {:induction false} HoldingNoneBelow(t: Tree, v: int)
    requires EndsBy(t, v - 1)
    ensures Holding(t, v) == multiset{}
  {
    if t.Node? {
      HoldingNoneBelow(t.left, v);
      HoldingNoneBelow(t.right, v);
    }
  }

  lemma {:induction false} StartsFromRaise(t: Tree, b: int, b': int)
    requires StartsFrom(t, b) && b' <= b
    ensures StartsFrom(t, b')
  {
    if t.Node? {
      StartsFromRaise(t.left, b, b');
      StartsFromRaise(t.right, b, b');
    }
  }

  /** The pruning is sound: a valid tree reports exactly the spans holding v. */
  lemma {:induction false} QueryHolding(t: Tree, v: int)
    requires Valid(t)
    ensures multiset(QueryFrom(t, v)) == Holding(t, v)
    decreases Size(t), 1
  {
    if t.Node? {
      LeftSide(t, v);
      RightSide(t, v);
      var here := if t.start <= v <= t.end then [Span(t.start, t.end)] else [];
      var qr := if t.right.Node? && t.start <= v then QueryFrom(t.right, v) else [];
      var ql := if t.left.Node? && t.left.maxEnd >= v then QueryFrom(t.left, v) else [];
      assert QueryFrom(t, v) == here + qr + ql;
      assert Holding(t, v) == multiset(here) + Holding(t.right, v) + Holding(t.left, v);
      assert multiset(here + qr + ql) == multiset(here) + multiset(qr) + multiset(ql);
    }
  }

  /** The left child is visited, and reports what it holds, or pruned
      because its maxEnd is below v, and then holds nothing at v. */
  lemma {:induction false} LeftSide(t: Tree, v: int)
    requires Valid(t) && t.Node?
    ensures multiset(if t.left.Node? && t.left.maxEnd >= v then QueryFrom(t.left, v) else []) == Holding(t.left, v)
    decreases Size(t), 0
  {
    var l := t.left;
    if l.Node? {
      if l.maxEnd >= v {
        QueryHolding(l, v);
      } else {
        MaxEndBounds(l);
        EndsByWeaken(l, l.maxEnd, v - 1);
        HoldingNoneBelow(l, v);
      }
    }
  }

  /** The right child is visited, and reports what it holds, or pruned
      because the node starts after v, and then holds nothing at v. */
  lemma {:induction false} RightSide(t: Tree, v: int)
    requires Valid(t) && t.Node?
    ensures multiset(if t.right.Node? && t.start <= v then QueryFrom(t.right, v) else []) == Holding(t.right, v)
    decreases Size(t), 0
  {
    var r := t.right;
    if r.Node? {
      if t.start <= v {
        QueryHolding(r, v);
      } else {
        StartsFromRaise(r, t.start, v + 1);
        HoldingNoneAbove(r, v);
      }
    }
  }

  /** query, with its explicit stack: the answer is the stack-free
      QueryFrom of the root (which QueryExact characterises). */
  method Query(t: Tree, v: int) returns (result: seq<Span>)
    ensures result == QueryFrom(t, v)
    ensures t == Nil ==> result == []
  {
    result := [];
    var stack := [t];
    while |stack| > 0
      invariant result + Pending(stack, v) == QueryFrom(t, v)
      decreases StackSize(stack), |stack|
    {
      var n := stack[|stack| - 1];
      var rest := stack[..|stack| - 1];
      StackPop(stack, v);
      stack := rest;
      if n.Nil? {
        continue;
      }
      var here, pushed := Visit(n, v);
      PopNode(n, rest, v);
      Regroup(result, here, Pending(rest + pushed, v));
      result := result + here;
      stack := rest + pushed;
    }
  }

  /** A valid tree reports exactly the stored spans holding v, each as
      often as it is stored. */
  lemma QueryExact(t: Tree, v: int)
    requires Valid(t)
    ensures forall x :: multiset(QueryFrom(t, v))[x] == if Contains(x, v) then Elements(t)[x] else 0
  {
    QueryHolding(t, v);
    HoldingIs(t, v);
  }

  lemma Regroup<T>(a: seq<T>, b: seq<T>, c: seq<T>)
    ensures (a + b) + c == a + (b + c)
  {
  }

  /** The span a node reports itself. */
  function Here(n: Tree, v: int): seq<Span>
    requires n.Node?
  {
    if n.start <= v <= n.end then [Span(n.start, n.end)] else []
  }

  /** The body of query's loop for a node: the span it reports, and the
      children it pushes (left first, so the right one is popped first). */
  method Visit(n: Tree, v: int) returns (here: seq<Span>, pushed: seq<Tree>)
    requires n.Node?
    ensures here == Here(n, v) && pushed == Pushed(n, v)
  {
    here := [];
    if n.start <= v <= n.end {
      here := [Span(n.start, n.end)];
    }
    pushed := [];
    if n.left.Node? && n.left.maxEnd >= v {
      pushed := pushed + [n.left];
    }
    if n.right.Node? && n.start <= v {
      pushed := pushed + [n.right];
    }
  }

  /** The children a visited node pushes, right last. */
  function Pushed(n: Tree, v: int): seq<Tree>
    requires n.Node?
  {
    (if n.left.Node? && n.left.maxEnd >= v then [n.left] else []) +
    (if n.right.Node? && n.start <= v then [n.right] else [])
  }

  /** Visiting a node: its report followed by the rest of the stack is its
      own span followed by what the stack reports once the node has pushed
      its children. */
  lemma PopNode(n: Tree, rest: seq<Tree>, v: int)
    requires n.Node?
    ensures QueryFrom(n, v) + Pending(rest, v) == Here(n, v) + Pending(rest + Pushed(n, v), v)
    ensures StackSize(rest + Pushed(n, v)) < Size(n) + StackSize(rest)
  {
    var ql := if n.left.Node? && n.left.maxEnd >= v then QueryFrom(n.left, v) else [];
    var qr := if n.right.Node? && n.start <= v then QueryFrom(n.right, v) else [];
    var s1 := if n.left.Node? && n.left.maxEnd >= v then rest + [n.left] else rest;
    var s2 := if n.right.Node? && n.start <= v then s1 + [n.right] else s1;
    assert s2 == rest + Pushed(n, v);
    if n.left.Node? && n.left.maxEnd >= v {
      StackPush(rest, n.left, v);
    }
    assert Pending(s1, v) == ql + Pending(rest, v);
    if n.right.Node? && n.start <= v {
      StackPush(s1, n.right, v);
    }
    assert Pending(s2, v) == qr + Pending(s1, v);
    assert QueryFrom(n, v) == Here(n, v) + qr + ql;
    Regroup4(Here(n, v), qr, ql, Pending(rest, v));
  }

  lemma StackPop(stack: seq<Tree>, v: int)
    requires |stack| > 0
    ensures Pending(stack, v) == QueryFrom(stack[|stack| - 1], v) + Pending(stack[..|stack| - 1], v)
    ensures StackSize(stack) == Size(stack[|stack| - 1]) + StackSize(stack[..|stack| - 1])
  {
  }

  lemma Regroup4<T>(a: seq<T>, b: seq<T>, c: seq<T>, d: seq<T>)
    ensures (a + b + c) + d == a + (b + (c + d))
  {
  }

  /** What the stack still has to report, top first. */
  function Pending(stack: seq<Tree>, v: int): seq<Span> {
    if |stack| == 0 then [] else QueryFrom(stack[|stack| - 1], v) + Pending(stack[..|stack| - 1], v)
  }

  lemma StackPush(stack: seq<Tree>, x: Tree, v: int)
    ensures Pending(stack + [x], v) == QueryFrom(x, v) + Pending(stack, v)
    ensures StackSize(stack + [x]) == Size(x) + StackSize(stack)
  {
    assert (stack + [x])[..|stack|] == stack;
  }

  function StackSize(stack: seq<Tree>): nat {
    if |stack| == 0 then 0 else Size(stack[|stack| - 1]) + StackSize(stack[..|stack| - 1])
  }
}
