/** Aplenty (2023/19/aoc19.go): workflows of rules send parts, or whole
    boxes of parts, between each other until they are accepted or
    rejected. A box is a four-dimensional hyperrectangle with one span per
    rating axis x, m, a, s, each span holding the values lo to hi inclusive
    (main counts a box as the product of hi - lo + 1). A rule splits a box
    by a hyperplane; a half that split finds empty comes back as the null
    box, modelled as None. */
module Aplenty {
  import opened Wrappers
  import opened Decimal

  datatype Span = Span(lo: int, hi: int)

  /** cub4: one span per axis, in the order x, m, a, s. */
  type Cube = c: seq<Span> | |c| == 4 witness [Span(0, 0), Span(0, 0), Span(0, 0), Span(0, 0)]

  /** The splitting hyperplane: axis a at coordinate x. */
  datatype Cut = Cut(a: int, x: int)

  /** The test byte of a jump-only rule. */
  const Nul: char := 0 as char

  datatype Rule = Rule(cut: Cut, tst: char, jmp: string)

  const Min: int := 1
  const Max: int := 4000

  function Smaller(a: int, b: int): int {
    if a < b then a else b
  }

  function Larger(a: int, b: int): int {
    if a < b then b else a
  }

  /** A point of the rating space lies in a box. */
  predicate Inside(p: seq<int>, c: Cube) {
    |p| == 4 && forall i :: 0 <= i < 4 ==> c[i].lo <= p[i] <= c[i].hi
  }

  predicate In(p: seq<int>, o: Option<Cube>) {
    o.Some? && Inside(p, o.value)
  }

  /** all: the single box of every rating combination, each axis 1 to 4000. */
  function All(): (r: seq<Cube>)
    ensures |r| == 1 && forall i :: 0 <= i < 4 ==> r[0][i] == Span(Min, Max)
  {
    [[Span(Min, Max), Span(Min, Max), Span(Min, Max), Span(Min, Max)]]
  }

  /** The box of all holds exactly the points with every rating in 1..4000. */
  lemma AllPoints(p: seq<int>)
    requires |p| == 4
    ensures Inside(p, All()[0]) <==> forall i :: 0 <= i < 4 ==> Min <= p[i] <= Max
  {
  }

  /** The box with axis a replaced by h, if split keeps h: it keeps a span
      only when lo < hi. */
  function Keep(hc: Cube, a: int, h: Span): (r: Option<Cube>)
    requires 0 <= a < 4
    ensures r.Some? <==> h.lo < h.hi
    ensures r.Some? ==> r.value[a] == h && forall i :: 0 <= i < 4 && i != a ==> r.value[i] == hc[i]
  {
    var c: Cube := hc[a := h];
    if h.lo < h.hi then Some(c) else None
  }

  /** split: the box cut at x + off on axis a into the half below (up to
      x + off - 1) and the half from x + off up. A '<' rule splits with
      off 0 and a '>' rule with off 1. */
  function Split(hc: Cube, hp: Cut, off: int): (r: (Option<Cube>, Option<Cube>))
    requires 0 <= hp.a < 4
    ensures var a, x := hp.a, hp.x + off;
      && (r.0.Some? <==> hc[a].lo < hc[a].hi && hc[a].lo < x - 1)
      && (r.1.Some? <==> hc[a].lo < hc[a].hi && x < hc[a].hi)
      && (r.0.Some? ==> r.0.value[a] == Span(hc[a].lo, Smaller(hc[a].hi, x - 1)))
      && (r.1.Some? ==> r.1.value[a] == Span(Larger(hc[a].lo, x), hc[a].hi))
    ensures forall i :: 0 <= i < 4 && i != hp.a ==>
      (r.0.Some? ==> r.0.value[i] == hc[i]) && (r.1.Some? ==> r.1.value[i] == hc[i])
  {
    var a, x := hp.a, hp.x + off;
    (Keep(hc, a, Span(hc[a].lo, Smaller(hc[a].hi, x - 1))),
     Keep(hc, a, Span(Larger(hc[a].lo, x), hc[a].hi)))
  }

  /** What split keeps is sound: a point of a half lies in the box and on
      that half's side of the plane. */
  lemma SplitSound(hc: Cube, hp: Cut, off: int, p: seq<int>)
    requires 0 <= hp.a < 4 && |p| == 4
    ensures In(p, Split(hc, hp, off).0) ==> Inside(p, hc) && p[hp.a] < hp.x + off
    ensures In(p, Split(hc, hp, off).1) ==> Inside(p, hc) && p[hp.a] >= hp.x + off
  {
  }

  /** ... but not complete: the whole box of part 2 cut by "x<2" loses the
      points with x = 1, since the low half holds one value and is dropped. */
  lemma SplitDropsPoint()
    ensures var hc := All()[0];
      var (lo, hi) := Split(hc, Cut(0, 2), 0);
      Inside([1, 1, 1, 1], hc) && !In([1, 1, 1, 1], lo) && !In([1, 1, 1, 1], hi)
  {
  }

  /** A part of main's input, rated x = 9, is the box with spans [9, 10]
      (parseCube writes n, n + 1). The rule "x<10" splits it into [9, 9] and
      [10, 10], both dropped: the part is neither sent on nor kept. */
  lemma SplitDropsPart()
    ensures var part: Cube := [Span(9, 10), Span(1, 2), Span(1, 2), Span(1, 2)];
      Split(part, Cut(0, 10), 0) == (None, None)
  {
  }

  /** split keeping every half that holds a value (lo <= hi). */
  function SplitFixed(hc: Cube, hp: Cut, off: int): (r: (Option<Cube>, Option<Cube>))
    requires 0 <= hp.a < 4
    ensures forall i :: 0 <= i < 4 && i != hp.a ==>
      (r.0.Some? ==> r.0.value[i] == hc[i]) && (r.1.Some? ==> r.1.value[i] == hc[i])
  {
    var a, x := hp.a, hp.x + off;
    var low := Span(hc[a].lo, Smaller(hc[a].hi, x - 1));
    var high := Span(Larger(hc[a].lo, x), hc[a].hi);
    var lc: Cube := hc[a := low];
    var hc': Cube := hc[a := high];
    (if low.lo <= low.hi then Some(lc) else None,
     if high.lo <= high.hi then Some(hc') else None)
  }

  /** The corrected split partitions the box: a point lies in the low half
      exactly when it is in the box below the plane, and in the high half
      exactly when it is in the box on or above it. */
  lemma SplitFixedPoints(hc: Cube, hp: Cut, off: int, p: seq<int>)
    requires 0 <= hp.a < 4 && |p| == 4
    ensures In(p, SplitFixed(hc, hp, off).0) <==> Inside(p, hc) && p[hp.a] < hp.x + off
    ensures In(p, SplitFixed(hc, hp, off).1) <==> Inside(p, hc) && p[hp.a] >= hp.x + off
  {
    var a := hp.a;
    var (lo, hi) := SplitFixed(hc, hp, off);
    if Inside(p, hc) && p[a] < hp.x + off {
      assert lo.Some? && forall i :: 0 <= i < 4 ==> lo.value[i].lo <= p[i] <= lo.value[i].hi;
    }
    if Inside(p, hc) && p[a] >= hp.x + off {
      assert hi.Some? && forall i :: 0 <= i < 4 ==> hi.value[i].lo <= p[i] <= hi.value[i].hi;
    }
    if In(p, lo) {
      assert forall i :: 0 <= i < 4 ==> hc[i].lo <= p[i] <= hc[i].hi;
    }
    if In(p, hi) {
      assert forall i :: 0 <= i < 4 ==> hc[i].lo <= p[i] <= hc[i].hi;
    }
  }

  /** A point passes a rule's test: always for a jump-only rule. */
  predicate Passes(r: Rule, p: seq<int>)
    requires 0 <= r.cut.a < 4 <= |p|
  {
    r.tst == Nul || (r.tst == '<' && p[r.cut.a] < r.cut.x) || (r.tst == '>' && p[r.cut.a] > r.cut.x)
  }

  /** One box through one rule, as filter's switch treats it (with the
      corrected split): the part sent to the rule's jump and the part left
      for the next rule. A test byte other than '<', '>' and 0 loses the
      box, as the switch has no case for it. */
  function Apply(r: Rule, c: Cube): (res: (Option<Cube>, Option<Cube>))
    requires 0 <= r.cut.a < 4
  {
    if r.tst == Nul then (Some(c), None)
    else if r.tst == '<' then SplitFixed(c, r.cut, 0)
    else if r.tst == '>' then (SplitFixed(c, r.cut, 1).1, SplitFixed(c, r.cut, 1).0)
    else (None, None)
  }

  /** A rule sends on exactly the points of the box that pass its test
      and leaves exactly the others. */
  lemma ApplyPoints(r: Rule, c: Cube, p: seq<int>)
    requires 0 <= r.cut.a < 4 && |p| == 4 && r.tst in {Nul, '<', '>'}
    ensures In(p, Apply(r, c).0) <==> Inside(p, c) && Passes(r, p)
    ensures In(p, Apply(r, c).1) <==> Inside(p, c) && !Passes(r, p)
  {
    if r.tst == '<' {
      SplitFixedPoints(c, r.cut, 0, p);
    } else if r.tst == '>' {
      SplitFixedPoints(c, r.cut, 1, p);
    }
  }

  /** The number of values of a span, as main counts them. */
  function Width(s: Span): int {
    s.hi - s.lo + 1
  }

  /** The number of points of a box: the product of its widths. */
  function Volume(c: Cube): int {
    Width(c[0]) * Width(c[1]) * Width(c[2]) * Width(c[3])
  }

  function Count(o: Option<Cube>): int {
    if o.Some? then Volume(o.value) else 0
  }

  /** A box whose spans all hold a value. */
  predicate Proper(c: Cube) {
    forall i :: 0 <= i < 4 ==> c[i].lo <= c[i].hi
  }

  /** The product of the widths of the axes other than a. */
  function Others(c: Cube, a: int): int
    requires 0 <= a < 4
  {
    if a == 0 then Width(c[1]) * Width(c[2]) * Width(c[3])
    else if a == 1 then Width(c[0]) * Width(c[2]) * Width(c[3])
    else if a == 2 then Width(c[0]) * Width(c[1]) * Width(c[3])
    else Width(c[0]) * Width(c[1]) * Width(c[2])
  }

  lemma Factor(c: Cube, a: int)
    requires 0 <= a < 4
    ensures Volume(c) == Width(c[a]) * Others(c, a)
  {
    var w0, w1, w2, w3 := Width(c[0]), Width(c[1]), Width(c[2]), Width(c[3]);
    assert Volume(c) == w0 * w1 * w2 * w3;
    if a == 1 {
      assert w0 * w1 == w1 * w0;
    } else if a == 2 {
      assert w0 * w1 * w2 == w2 * (w0 * w1);
    } else if a == 3 {
      assert w0 * w1 * w2 * w3 == w3 * (w0 * w1 * w2);
    }
  }

  /** The box with axis a replaced by h counts h's width times the rest. */
  lemma Replace(c: Cube, a: int, h: Span)
    requires 0 <= a < 4
    ensures Volume(c[a := h]) == Width(h) * Others(c, a)
  {
    Factor(c[a := h], a);
    assert Others(c[a := h], a) == Others(c, a);
  }

  /** The corrected split loses and duplicates nothing: the halves of a
      proper box count as many points as the box. */
  lemma SplitFixedVolume(hc: Cube, hp: Cut, off: int)
    requires 0 <= hp.a < 4 && Proper(hc)
    ensures Count(SplitFixed(hc, hp, off).0) + Count(SplitFixed(hc, hp, off).1) == Volume(hc)
  {
    var a, x := hp.a, hp.x + off;
    var low := Span(hc[a].lo, Smaller(hc[a].hi, x - 1));
    var high := Span(Larger(hc[a].lo, x), hc[a].hi);
    var (lo, hi) := SplitFixed(hc, hp, off);
    var o := Others(hc, a);
    var wl := if lo.Some? then Width(low) else 0;
    var wh := if hi.Some? then Width(high) else 0;
    assert Count(lo) == wl * o by {
      if lo.Some? {
        Replace(hc, a, low);
      }
    }
    assert Count(hi) == wh * o by {
      if hi.Some? {
        Replace(hc, a, high);
      }
    }
    assert wl + wh == Width(hc[a]);
    Distribute(wl, wh, o);
    Factor(hc, a);
  }

  lemma Distribute(a: int, b: int, c: int)
    ensures a * c + b * c == (a + b) * c
  {
  }

  /** The first index of c in s, or -1 (strings.Index with a one-byte
      needle). */
  function IndexOf(s: string, c: char): (i: int)
    ensures -1 <= i < |s|
    ensures i >= 0 ==> s[i] == c && c !in s[..i]
    ensures i == -1 <==> c !in s
  {
    if s == [] then -1
    else if s[0] == c then 0
    else
      var j := IndexOf(s[1..], c);
      assert s[1..][..j + 1] == s[1..j + 2] && s[..j + 2] == [s[0]] + s[1..j + 2];
      if j == -1 then -1 else j + 1
  }

  /** strings.Split(s, ":")[1] when s holds a colon at i: the text after it
      up to the next colon. */
  function Field(s: string, i: int): (f: string)
    requires 0 <= i < |s|
    ensures ':' !in f
  {
    var t := s[i + 1..];
    var j := IndexOf(t, ':');
    if j == -1 then t else t[..j]
  }

  /** What parseRule reads without failing: a rule with a test starts with
      an axis letter and a test byte before its number, written in
      decimal. */
  predicate Parsable(s: string) {
    var i := IndexOf(s, ':');
    i == -1 || (i >= 2 && AllDigits(s[2..i]))
  }

  /** parseRule: a rule without ':' only jumps; otherwise the axis is the
      letter's place in "xmas" (-1 for any other letter), the test is the
      second byte, the coordinate the number before ':' and the jump the
      text after it. */
  function ParseRule(s: string): (r: Rule)
    requires Parsable(s)
    ensures ':' !in s ==> r == Rule(Cut(0, 0), Nul, s)
    ensures ':' in s ==> r.tst == s[1] && -1 <= r.cut.a < 4 && r.cut.x >= 0 && ':' !in r.jmp
  {
    var i := IndexOf(s, ':');
    if i == -1 then Rule(Cut(0, 0), Nul, s)
    else Rule(Cut(IndexOf("xmas", s[0]), Atoi(s[2..i])), s[1], Field(s, i))
  }

  /** The rules a workflow line can hold, printed back by Show. */
  predicate WellFormed(r: Rule) {
    ':' !in r.jmp &&
    ((r.tst == Nul && r.cut == Cut(0, 0)) ||
     (0 <= r.cut.a < 4 && r.tst in {'<', '>'} && 0 <= r.cut.x < Limit))
  }

  /** A rule as the input writes it: "m>3286:A", or the jump alone. */
  function Show(r: Rule): string
    requires WellFormed(r)
  {
    if r.tst == Nul then r.jmp
    else ["xmas"[r.cut.a], r.tst] + Itoa(r.cut.x) + [':'] + r.jmp
  }

  /** parseRule reads back every rule Show writes. */
  lemma ParseShow(r: Rule)
    requires WellFormed(r)
    ensures Parsable(Show(r)) && ParseRule(Show(r)) == r
  {
    if r.tst != Nul {
      var s := Show(r);
      var digits := Itoa(r.cut.x);
      AtoiItoa(r.cut.x);
      var i := 2 + |digits|;
      assert s[i] == ':' && s[..i] == ["xmas"[r.cut.a], r.tst] + digits;
      assert ':' !in s[..i];
      assert IndexOf(s, ':') == i;
      assert s[2..i] == digits;
      assert s[i + 1..] == r.jmp;
      assert IndexOf("xmas", "xmas"[r.cut.a]) == r.cut.a;
    }
  }
}
