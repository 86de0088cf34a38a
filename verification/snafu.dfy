/** Balanced base-5 numbers (2022/25/aoc25.go). A SNAFU number is a string
    of the digits '=', '-', '0', '1', '2' (worth -2 .. 2); it is stored
    reversed, least significant digit first, and added digit by digit with
    a lookup table.
 */
module Snafu {

  predicate IsDigit(c: char) {
    c == '=' || c == '-' || c == '0' || c == '1' || c == '2'
  }

  /** The `base` map of dadd: the worth of a digit. */
  function Base(c: char): int
    requires IsDigit(c)
  {
    match c
    case '=' => -2
    case '-' => -1
    case '0' => 0
    case '1' => 1
    case '2' => 2
  }

  /** The adder table tab[x][y] = (carry, digit), defined for Base(x) <= Base(y). */
  function Tab(x: char, y: char): (char, char)
    requires IsDigit(x) && IsDigit(y) && Base(x) <= Base(y)
  {
    match x
    case '=' => (match y
      case '=' => ('-', '1')
      case '-' => ('-', '2')
      case '0' => ('0', '=')
      case '1' => ('0', '-')
      case '2' => ('0', '0'))
    case '-' => (match y
      case '-' => ('0', '=')
      case '0' => ('0', '-')
      case '1' => ('0', '0')
      case '2' => ('0', '1'))
    case '0' => (match y
      case '0' => ('0', '0')
      case '1' => ('0', '1')
      case '2' => ('0', '2'))
    case '1' => (match y
      case '1' => ('0', '2')
      case '2' => ('1', '='))
    case '2' => ('1', '-')
  }

  /** dadd: one digit addition. Both halves are digits, and carry * 5 +
      digit is the sum of the two inputs. */
  function DAdd(x: char, y: char): (r: (char, char))
    requires IsDigit(x) && IsDigit(y)
    ensures IsDigit(r.0) && IsDigit(r.1)
    ensures 5 * Base(r.0) + Base(r.1) == Base(x) + Base(y)
  {
    if Base(x) > Base(y) then Tab(y, x) else Tab(x, y)
  }

  /** dadd sorts its inputs first, so their order does not matter. */
  lemma DAddCommutes(x: char, y: char)
    requires IsDigit(x) && IsDigit(y)
    ensures DAdd(x, y) == DAdd(y, x)
  {
    if Base(x) == Base(y) {
      assert x == y;
    }
  }

  predicate IsSnafu(a: seq<char>) {
    forall i :: 0 <= i < |a| ==> IsDigit(a[i])
  }

  function Pow5(n: nat): int {
    if n == 0 then 1 else 5 * Pow5(n - 1)
  }

  /** The number a SNAFU string stands for, least significant digit first. */
  function Value(a: seq<char>): int
    requires IsSnafu(a)
  {
    if |a| == 0 then 0 else Base(a[0]) + 5 * Value(a[1..])
  }

  /** Replacing digit i changes the value by the difference times 5^i. */
  lemma {:induction false} ValueUpdate(a: seq<char>, i: nat, x: char)
    requires IsSnafu(a) && i < |a| && IsDigit(x)
    ensures IsSnafu(a[i := x]) && Value(a[i := x]) == Value(a) + (Base(x) - Base(a[i])) * Pow5(i)
  {
    var b := a[i := x];
    assert IsSnafu(b) by {
      assert forall k :: 0 <= k < |b| ==> b[k] == a[k] || b[k] == x;
    }
    if i > 0 {
      var d, p := Base(x) - Base(a[i]), Pow5(i - 1);
      assert b[1..] == a[1..][i - 1 := x];
      ValueUpdate(a[1..], i - 1, x);
      assert Value(b) == Base(a[0]) + 5 * Value(b[1..]);
      Scale(Value(a[1..]), d, p);
    }
  }

  lemma Scale(v: int, d: int, p: int)
    ensures 5 * (v + d * p) == 5 * v + d * (5 * p)
  {
  }

  /** A new most significant digit adds its worth times 5^|a|. */
  lemma {:induction false} ValueAppend(a: seq<char>, x: char)
    requires IsSnafu(a) && IsDigit(x)
    ensures IsSnafu(a + [x]) && Value(a + [x]) == Value(a) + Base(x) * Pow5(|a|)
  {
    if |a| > 0 {
      assert (a + [x])[1..] == a[1..] + [x];
      ValueAppend(a[1..], x);
    }
  }

  /** The value of the digits of b from position i on, scaled back down. */
  function Rest(b: seq<char>, i: nat): int
    requires IsSnafu(b)
  {
    if i < |b| then Value(b[i..]) else 0
  }

  lemma RestStep(b: seq<char>, i: nat)
    requires IsSnafu(b) && i < |b|
    ensures Rest(b, i) == Base(b[i]) + 5 * Rest(b, i + 1)
  {
    assert b[i..][1..] == b[i + 1..];
  }

  /** The bookkeeping of one column: when x + c + y = d + 5 c', writing d
      over x and carrying c' into the next column (worth 5p) keeps the total. */
  lemma Balance(p: int, v: int, x: int, c: int, d: int, y: int, rest: int, c': int)
    requires d + 5 * c' == x + c + y
    ensures (v + (d - x) * p) + (5 * p) * (c' + rest) == v + p * (c + (y + 5 * rest))
  {
    calc {
      (v + (d - x) * p) + (5 * p) * (c' + rest);
      v + p * (d - x + 5 * c' + 5 * rest);
      v + p * (c + (y + 5 * rest));
    }
  }

  /** The digit work of one turn of add's loop: x plus the carry c, then
      plus y when b still has a digit there (the code adds '0' first, which
      changes nothing); the new carry is the sum of the two carries. */
  method Digit(x: char, c: char, y: char, more: bool) returns (d: char, c': char)
    requires IsDigit(x) && IsDigit(c) && IsDigit(y)
    ensures IsDigit(d) && IsDigit(c')
    ensures Base(d) + 5 * Base(c') == Base(x) + Base(c) + (if more then Base(y) else 0)
  {
    var s1 := DAdd(x, c);
    var c1 := s1.0;
    d := s1.1;
    var s2 := DAdd(d, '0');
    var c2 := s2.0;
    d := s2.1;
    if more {
      s2 := DAdd(d, y);
      c2, d := s2.0, s2.1;
    }
    c' := DAdd(c1, c2).1;
  }

  /** One turn of add's loop: digit i of r becomes d, and the carry c'
      moves on; the total the invariant tracks is unchanged. */
  method Column(r: seq<char>, i: nat, c: char, b: seq<char>) returns (r': seq<char>, c': char)
    requires IsSnafu(r) && IsSnafu(b) && i < |r| && IsDigit(c)
    ensures IsSnafu(r') && |r'| == |r| && IsDigit(c')
    ensures Value(r') + Pow5(i + 1) * (Base(c') + Rest(b, i + 1)) == Value(r) + Pow5(i) * (Base(c) + Rest(b, i))
  {
    var d;
    d, c' := Digit(r[i], c, if i < |b| then b[i] else '0', i < |b|);
    ghost var y := if i < |b| then Base(b[i]) else 0;
    if i < |b| {
      RestStep(b, i);
    }
    ValueUpdate(r, i, d);
    Balance(Pow5(i), Value(r), Base(r[i]), Base(c), Base(d), y, Rest(b, i + 1), Base(c'));
    r' := r[i := d];
  }

  /** add: the digit-wise sum with carry, stopping early once b is used
      up and the carry is 0; a carry left at the end becomes a new most
      significant digit. The result stands for the sum of the values. */
  method Add(a0: seq<char>, b0: seq<char>) returns (r: seq<char>)
    requires IsSnafu(a0) && IsSnafu(b0)
    ensures IsSnafu(r) && Value(r) == Value(a0) + Value(b0)
    ensures var n := if |a0| < |b0| then |b0| else |a0|; |r| == n || |r| == n + 1
  {
    var a, b := a0, b0;
    if |b| > |a| {
      a, b := b, a;
    }
    r := a;
    var c := '0';
    var i := 0;
    while i < |r|
      invariant 0 <= i <= |r| == |a| && IsSnafu(r) && IsDigit(c)
      invariant Value(r) + Pow5(i) * (Base(c) + Rest(b, i)) == Value(a) + Value(b)
    {
      r, c := Column(r, i, c, b);
      i := i + 1;
      if i > |b| && c == '0' {
        break;
      }
    }
    if c != '0' {
      ValueAppend(r, c);
      r := r + [c];
    }
  }

  /** mksnafu: the digits as read, most significant first, reversed. */
  function MkSnafu(s: seq<char>): (a: seq<char>)
    ensures |a| == |s| && forall i :: 0 <= i < |s| ==> a[i] == s[|s| - 1 - i]
  {
    if |s| == 0 then [] else [s[|s| - 1]] + MkSnafu(s[..|s| - 1])
  }

  /** String: the stored digits printed back most significant first. */
  function String(a: seq<char>): (s: seq<char>)
    ensures |s| == |a| && forall i :: 0 <= i < |a| ==> s[i] == a[|a| - 1 - i]
  {
    if |a| == 0 then [] else String(a[1..]) + [a[0]]
  }

  /** Printing a number made from a string gives the string back. */
  lemma StringMkSnafu(s: seq<char>)
    ensures String(MkSnafu(s)) == s
  {
  }
}
