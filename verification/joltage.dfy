/** Lobby (2025/3/aoc3.go): the largest number made of `size` digits of a
    line, kept in order, built greedily on a stack that may drop at most
    len(line) - size digits.
 */
module Joltage {
  import opened Decimal

  /** seq: the kept digits, the number of digits wanted, and the removals
      still allowed. */
  datatype Stack = Stack(digits: string, size: nat, krem: int)

  /** newSeq: nothing kept yet, inputSize - size removals allowed. */
  function NewSeq(size: nat, inputSize: int): (s: Stack)
    ensures s.digits == [] && s.size == size && s.krem == inputSize - size
  {
    Stack([], size, inputSize - size)
  }

  /** push: drop smaller trailing digits while removals remain, then
      append d. The kept digits are a prefix of the old ones (the first j)
      followed by d; every dropped digit is smaller than d, each costs one
      removal, and the dropping stops at a digit at least d, at the bottom
      of the stack or when removals run out. */
  function Push(s: Stack, d: char): (r: Stack)
    ensures r.size == s.size && |r.digits| >= 1 && r.digits[|r.digits| - 1] == d
    ensures var j := |r.digits| - 1;
      j <= |s.digits| && r.digits[..j] == s.digits[..j] &&
      r.krem == s.krem - (|s.digits| - j) &&
      (forall q :: j <= q < |s.digits| ==> s.digits[q] < d) &&
      (j == 0 || r.krem <= 0 || s.digits[j - 1] >= d)
    ensures s.krem >= 0 ==> r.krem >= 0
    decreases |s.digits|
  {
    if s.krem > 0 && |s.digits| > 0 && d > s.digits[|s.digits| - 1] then
      Push(s.(digits := s.digits[..|s.digits| - 1], krem := s.krem - 1), d)
    else
      s.(digits := s.digits + [d])
  }

  /** main's loop: push every digit of the line. Kept digits and unused
      removals always add up to the digits still owed. */
  function Run(s: Stack, line: string): (r: Stack)
    ensures r.size == s.size
    ensures |r.digits| - r.krem == |s.digits| - s.krem + |line|
    ensures s.krem >= 0 ==> r.krem >= 0
    decreases |line|
  {
    if line == [] then s else Run(Push(s, line[0]), line[1..])
  }

  /** Over a whole line the removals never run below zero, and exactly
      size digits plus the unused removals stay kept. */
  lemma RemovalsBound(line: string, size: nat)
    requires size <= |line|
    ensures var r := Run(NewSeq(size, |line|), line); r.krem >= 0 && |r.digits| == size + r.krem
  {
  }

  /** The digits val reads: the first size kept digits. */
  function Largest(line: string, size: nat): (r: string)
    requires size <= |line|
    ensures |r| == size
  {
    Run(NewSeq(size, |line|), line).digits[..size]
  }

  /** The number a string of digits spells, most significant first. */
  function Num(s: string): nat
    requires AllDigits(s)
  {
    if |s| == 0 then 0 else DigitValue(s[0]) * Pow10(|s| - 1) + Num(s[1..])
  }

  /** val: read the first size digits left to right. */
  method Val(s: Stack) returns (n: nat)
    requires s.size <= |s.digits| && AllDigits(s.digits[..s.size])
    ensures n == Num(s.digits[..s.size])
  {
    n := 0;
    var i := 0;
    while i < s.size
      invariant 0 <= i <= s.size
      invariant n == Num(s.digits[..i])
    {
      assert s.digits[..i + 1] == s.digits[..i] + [s.digits[i]];
      NumSnoc(s.digits[..i], s.digits[i]);
      n := 10 * n + DigitValue(s.digits[i]);
      i := i + 1;
    }
  }

  lemma {:induction false} NumSnoc(s: string, c: char)
    requires AllDigits(s) && IsDigitChar(c)
    ensures Num(s + [c]) == 10 * Num(s) + DigitValue(c)
    decreases |s|
  {
    if |s| > 0 {
      var t := s + [c];
      assert t[1..] == s[1..] + [c];
      NumSnoc(s[1..], c);
      var p := Pow10(|s| - 1);
      assert Pow10(|s|) == 10 * p;
      var a := DigitValue(s[0]);
      assert a * (10 * p) == 10 * (a * p);
    }
  }

  // ---------------------------------------------------------------------
  // Subsequences and the lexicographic order

  /** a keeps some of the characters of b, in order. */
  predicate IsSubseq(a: string, b: string)
    decreases |b|
  {
    |a| == 0 || (|b| > 0 && ((a[0] == b[0] && IsSubseq(a[1..], b[1..])) || IsSubseq(a, b[1..])))
  }

  /** a comes no later than b in dictionary order (equal lengths). */
  predicate LexLe(a: string, b: string)
    requires |a| == |b|
  {
    |a| == 0 || a[0] < b[0] || (a[0] == b[0] && LexLe(a[1..], b[1..]))
  }

  /** Each character of a is at most the one of b at the same place. */
  predicate Dominated(a: string, b: string) {
    |a| == |b| && forall i :: 0 <= i < |a| ==> a[i] <= b[i]
  }

  predicate NonIncreasing(s: string) {
    forall i, j :: 0 <= i <= j < |s| ==> s[i] >= s[j]
  }

  lemma {:induction false} SubseqLength(a: string, b: string)
    requires IsSubseq(a, b)
    ensures |a| <= |b|
    decreases |b|
  {
    if |a| > 0 {
      if a[0] == b[0] && IsSubseq(a[1..], b[1..]) {
        SubseqLength(a[1..], b[1..]);
      } else {
        SubseqLength(a, b[1..]);
      }
    }
  }

  /** A subsequence as long as the whole is the whole. */
  lemma {:induction false} SubseqSameLength(a: string, b: string)
    requires IsSubseq(a, b) && |a| == |b|
    ensures a == b
    decreases |b|
  {
    if |a| > 0 {
      if a[0] == b[0] && IsSubseq(a[1..], b[1..]) {
        SubseqSameLength(a[1..], b[1..]);
        assert a == [a[0]] + a[1..] && b == [b[0]] + b[1..];
      } else {
        SubseqLength(a, b[1..]);
      }
    }
  }

  lemma {:induction false} SubseqRefl(a: string)
    ensures IsSubseq(a, a)
    decreases |a|
  {
    if |a| > 0 {
      SubseqRefl(a[1..]);
    }
  }

  lemma {:induction false} PrefixSubseq(b: string, k: nat)
    requires k <= |b|
    ensures IsSubseq(b[..k], b)
    decreases |b|
  {
    if k > 0 {
      assert b[..k][1..] == b[1..][..k - 1];
      PrefixSubseq(b[1..], k - 1);
    }
  }

  /** A prefix of a subsequence is a subsequence. */
  lemma {:induction false} SubseqPrefix(a: string, b: string, k: nat)
    requires IsSubseq(a, b) && k <= |a|
    ensures IsSubseq(a[..k], b)
    decreases |b|
  {
    if k > 0 {
      if a[0] == b[0] && IsSubseq(a[1..], b[1..]) {
        assert a[..k][1..] == a[1..][..k - 1];
        SubseqPrefix(a[1..], b[1..], k - 1);
      } else {
        SubseqPrefix(a, b[1..], k);
      }
    }
  }

  /** Appending the same character to both keeps a subsequence. */
  lemma {:induction false} SubseqSnoc(a: string, b: string, c: char)
    requires IsSubseq(a, b)
    ensures IsSubseq(a + [c], b + [c])
    decreases |b|
  {
    var a', b' := a + [c], b + [c];
    if |a| == 0 {
      if |b| > 0 {
        assert b'[1..] == b[1..] + [c];
        SubseqSnoc(a, b[1..], c);
      } else {
        assert a'[1..] == [] && b'[1..] == [];
      }
    } else if a[0] == b[0] && IsSubseq(a[1..], b[1..]) {
      assert a'[1..] == a[1..] + [c] && b'[1..] == b[1..] + [c];
      SubseqSnoc(a[1..], b[1..], c);
    } else {
      assert b'[1..] == b[1..] + [c];
      SubseqSnoc(a, b[1..], c);
    }
  }

  /** The kept digits are a subsequence of the digits pushed. */
  lemma {:induction false} RunSubseq(s: Stack, seen: string, line: string)
    requires IsSubseq(s.digits, seen)
    ensures IsSubseq(Run(s, line).digits, seen + line)
    decreases |line|
  {
    if line == [] {
      assert seen + line == seen;
    } else {
      var p := Push(s, line[0]);
      var j := |p.digits| - 1;
      SubseqPrefix(s.digits, seen, j);
      SubseqSnoc(s.digits[..j], seen, line[0]);
      assert p.digits == s.digits[..j] + [line[0]];
      RunSubseq(p, seen + [line[0]], line[1..]);
      assert seen + [line[0]] + line[1..] == seen + line;
    }
  }

  lemma {:induction false} LexTrans(a: string, b: string, c: string)
    requires |a| == |b| == |c| && LexLe(a, b) && LexLe(b, c)
    ensures LexLe(a, c)
    decreases |a|
  {
    if |a| > 0 && a[0] == b[0] == c[0] {
      LexTrans(a[1..], b[1..], c[1..]);
    }
  }

  lemma {:induction false} DominatedLex(a: string, b: string)
    requires Dominated(a, b)
    ensures LexLe(a, b)
    decreases |a|
  {
    if |a| > 0 && a[0] == b[0] {
      DominatedLex(a[1..], b[1..]);
    }
  }

  /** A subsequence of a non-increasing string lies below its prefix of
      the same length, place by place. */
  lemma {:induction false} SubseqNonIncreasing(t: string, s: string)
    requires NonIncreasing(s) && IsSubseq(t, s)
    ensures |t| <= |s| && Dominated(t, s[..|t|])
    decreases |s|
  {
    SubseqLength(t, s);
    if |t| > 0 {
      if t[0] == s[0] && IsSubseq(t[1..], s[1..]) {
        SubseqNonIncreasing(t[1..], s[1..]);
        forall i | 1 <= i < |t|
          ensures t[i] <= s[i]
        {
          assert t[i] == t[1..][i - 1] && s[i] == s[1..][i - 1];
        }
      } else {
        SubseqNonIncreasing(t, s[1..]);
        forall i | 0 <= i < |t|
          ensures t[i] <= s[i]
        {
          assert t[i] <= s[1..][i] == s[i + 1];
        }
      }
    }
  }

  // ---------------------------------------------------------------------
  // Optimality of the greedy stack

  /** Dropping t from a non-increasing stack before a larger d loses
      nothing: any choice of |T| characters from P + [t] + ([d] + R) that
      leaves at least one out is matched or beaten by a choice from
      P + ([d] + R). */
  lemma {:induction false} Drop(P: string, t: char, d: char, R: string, T: string) returns (T': string)
    requires NonIncreasing(P + [t]) && t < d
    requires IsSubseq(T, P + [t] + ([d] + R)) && |T| <= |P| + 1 + |R|
    ensures IsSubseq(T', P + ([d] + R)) && |T'| == |T| && LexLe(T, T')
    decreases |P|
  {
    var Q := [d] + R;
    if |T| == 0 {
      T' := [];
    } else if P == [] {
      assert P + [t] + Q == [t] + Q;
      if IsSubseq(T, Q) {
        T' := T;
        assert P + Q == Q;
        DominatedLex(T, T);
      } else {
        T' := Q[..|T|];
        PrefixSubseq(Q, |T|);
        assert P + Q == Q;
        assert T[0] == t < d == T'[0];
      }
    } else {
      var p, P1 := P[0], P[1..];
      var W1 := P1 + [t] + Q;
      assert P + [t] + Q == [p] + W1;
      assert P1 + [t] == (P + [t])[1..];
      assert P + Q == [p] + (P1 + Q);
      if T[0] == p && IsSubseq(T[1..], W1) {
        var T1 := Drop(P1, t, d, R, T[1..]);
        T' := [p] + T1;
        assert T'[1..] == T1 && T'[0] == T[0];
      } else if |T| <= |P1| + 1 + |R| {
        T' := Drop(P1, t, d, R, T);
      } else {
        SubseqSameLength(T, W1);
        T' := P + Q;
        SubseqRefl(T');
        forall i | 0 <= i < |T|
          ensures T[i] <= T'[i]
        {
          if i < |P| {
            assert T[i] == (P + [t])[i + 1] && T'[i] == (P + [t])[i];
          }
        }
        DominatedLex(T, T');
      }
    }
  }

  /** One pop: pushing d onto P + [t] with removals left is pushing d onto
      P with one removal fewer, and the choice T can move to P. */
  lemma PopStep(S: string, sz: nat, c: int, rest: string, T: string) returns (T': string)
    requires c > 0 && |S| > 0 && |rest| > 0 && rest[0] > S[|S| - 1] && NonIncreasing(S)
    requires IsSubseq(T, S + rest) && |T| + c == |S| + |rest|
    ensures var P := S[..|S| - 1];
      NonIncreasing(P) && IsSubseq(T', P + rest) && |T'| == |T| && LexLe(T, T') &&
      Run(Stack(S, sz, c), rest) == Run(Stack(P, sz, c - 1), rest)
  {
    var d, R := rest[0], rest[1..];
    assert rest == [d] + R;
    var P, t := S[..|S| - 1], S[|S| - 1];
    assert S == P + [t];
    assert S + rest == P + [t] + ([d] + R);
    T' := Drop(P, t, d, R, T);
    forall i, j | 0 <= i <= j < |P|
      ensures P[i] >= P[j]
    {
      assert P[i] == S[i] && P[j] == S[j];
    }
  }

  /** No pop: d goes on top. */
  lemma KeepStep(S: string, sz: nat, c: int, rest: string)
    requires |rest| > 0 && !(c > 0 && |S| > 0 && rest[0] > S[|S| - 1])
    ensures Run(Stack(S, sz, c), rest) == Run(Stack(S + [rest[0]], sz, c), rest[1..])
  {
    var s, d := Stack(S, sz, c), rest[0];
    assert Run(s, rest) == Run(Push(s, d), rest[1..]);
    NoPop(S, sz, c, d);
  }

  lemma ShiftFirst(S: string, rest: string)
    requires |rest| > 0
    ensures S + rest == (S + [rest[0]]) + rest[1..]
  {
    assert rest == [rest[0]] + rest[1..];
  }

  /** With removals left the stack stays non-increasing. */
  lemma NonIncreasingSnoc(S: string, d: char)
    requires NonIncreasing(S) && (|S| == 0 || d <= S[|S| - 1])
    ensures NonIncreasing(S + [d])
  {
    var S' := S + [d];
    forall i, j | 0 <= i <= j < |S'|
      ensures S'[i] >= S'[j]
    {
      if j == |S| {
        if i < |S| {
          assert S[i] >= S[|S| - 1];
        }
      } else {
        assert S'[i] == S[i] && S'[j] == S[j];
      }
    }
  }

  lemma NoPop(S: string, sz: nat, c: int, d: char)
    requires !(c > 0 && |S| > 0 && d > S[|S| - 1])
    ensures Push(Stack(S, sz, c), d) == Stack(S + [d], sz, c)
  {
  }

  /** With no digits left, the first |T| kept digits are at least T. */
  lemma TrackEnd(S: string, sz: nat, c: int, T: string)
    requires c >= 0 && (c > 0 ==> NonIncreasing(S))
    requires IsSubseq(T, S) && |T| + c == |S|
    ensures |T| <= |S| && LexLe(T, S[..|T|])
  {
    if c == 0 {
      SubseqSameLength(T, S);
      DominatedLex(T, S[..|T|]);
    } else {
      SubseqNonIncreasing(T, S);
      DominatedLex(T, S[..|T|]);
    }
  }

  /** Whatever |T| characters are taken from the stack and the digits still
      to come, the greedy run ends with a first |T| digits at least as
      large, as long as the removals left are exactly the characters T
      leaves out. */
  lemma {:induction false} Track(S: string, sz: nat, c: int, rest: string, T: string)
    requires c >= 0 && (c > 0 ==> NonIncreasing(S))
    requires IsSubseq(T, S + rest) && |T| + c == |S| + |rest|
    ensures var r := Run(Stack(S, sz, c), rest); |T| <= |r.digits| && LexLe(T, r.digits[..|T|])
    decreases |rest|, |S|
  {
    if rest == [] {
      assert S + rest == S;
      TrackEnd(S, sz, c, T);
    } else if c > 0 && |S| > 0 && rest[0] > S[|S| - 1] {
      var T' := PopStep(S, sz, c, rest, T);
      Track(S[..|S| - 1], sz, c - 1, rest, T');
      var r := Run(Stack(S, sz, c), rest);
      LexTrans(T, T', r.digits[..|T|]);
    } else {
      KeepStep(S, sz, c, rest);
      ShiftFirst(S, rest);
      if c > 0 {
        NonIncreasingSnoc(S, rest[0]);
      }
      Track(S + [rest[0]], sz, c, rest[1..], T);
    }
  }

  /** The greedy answer is a choice of size digits of the line, in order,
      and no other such choice comes after it in dictionary order. */
  lemma LargestIsLargest(line: string, size: nat, T: string)
    requires size <= |line| && IsSubseq(T, line) && |T| == size
    ensures IsSubseq(Largest(line, size), line)
    ensures LexLe(T, Largest(line, size))
  {
    var s := NewSeq(size, |line|);
    assert [] + line == line;
    Track([], size, |line| - size, line, T);
    RunSubseq(s, [], line);
    SubseqPrefix(Run(s, line).digits, line, size);
  }

  // ---------------------------------------------------------------------
  // Dictionary order of digit strings is numeric order

  lemma {:induction false} NumBound(s: string)
    requires AllDigits(s)
    ensures Num(s) < Pow10(|s|)
    decreases |s|
  {
    if |s| > 0 {
      NumBound(s[1..]);
      var p, a := Pow10(|s| - 1), DigitValue(s[0]);
      assert a * p <= 9 * p;
    }
  }

  lemma {:induction false} LexNum(a: string, b: string)
    requires AllDigits(a) && AllDigits(b) && |a| == |b| && LexLe(a, b)
    ensures Num(a) <= Num(b)
    decreases |a|
  {
    if |a| > 0 {
      var p := Pow10(|a| - 1);
      var x, y := DigitValue(a[0]), DigitValue(b[0]);
      if a[0] < b[0] {
        NumBound(a[1..]);
        NumBound(b[1..]);
        LeadingDigit(x, y, p, Num(a[1..]), Num(b[1..]));
      } else {
        LexNum(a[1..], b[1..]);
      }
    }
  }

  lemma LeadingDigit(x: int, y: int, p: int, u: int, v: int)
    requires 0 <= x < y && 0 <= u < p && 0 <= v
    ensures x * p + u <= y * p + v
  {
    assert (x + 1) * p <= y * p;
  }

  lemma {:induction false} SubseqDigits(a: string, b: string)
    requires IsSubseq(a, b) && AllDigits(b)
    ensures AllDigits(a)
    decreases |b|
  {
    if |a| > 0 {
      if a[0] == b[0] && IsSubseq(a[1..], b[1..]) {
        SubseqDigits(a[1..], b[1..]);
        assert forall i :: 1 <= i < |a| ==> a[i] == a[1..][i - 1];
      } else {
        SubseqDigits(a, b[1..]);
      }
    }
  }

  /** On a line of digits the greedy answer is the largest number spelled
      by size of its digits kept in order. */
  lemma LargestValue(line: string, size: nat, T: string)
    requires AllDigits(line) && size <= |line| && IsSubseq(T, line) && |T| == size
    ensures AllDigits(T) && AllDigits(Largest(line, size))
    ensures Num(T) <= Num(Largest(line, size))
  {
    LargestIsLargest(line, size, T);
    SubseqDigits(T, line);
    SubseqDigits(Largest(line, size), line);
    LexNum(T, Largest(line, size));
  }
}
