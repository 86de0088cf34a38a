/** Invalid product ids (2025/2/aoc2.go): decimal conversion with a
    fixed ten-digit buffer, and the two repetition tests run on every id of
    a range.
 */
module Decimal {

  /** The buffer of itoa holds this many digits. */
  const MaxDigits: nat := 10

  predicate IsDigitChar(c: char) {
    '0' <= c <= '9'
  }

  predicate AllDigits(s: string) {
    forall i :: 0 <= i < |s| ==> IsDigitChar(s[i])
  }

  function DigitValue(c: char): int
    requires IsDigitChar(c)
  {
    c as int - '0' as int
  }

  function DigitChar(d: int): (c: char)
    requires 0 <= d < 10
    ensures IsDigitChar(c) && DigitValue(c) == d
  {
    ('0' as int + d) as char
  }

  function Pow10(k: nat): nat {
    if k == 0 then 1 else 10 * Pow10(k - 1)
  }

  /** 10^MaxDigits: the ids the buffer can hold are those below it. */
  const Limit: nat := 10000000000

  lemma LimitIsPow10()
    ensures Pow10(MaxDigits) == Limit
  {
  }

  lemma {:induction false} Pow10Grows(j: nat, k: nat)
    requires j <= k
    ensures Pow10(j) <= Pow10(k)
  {
    if j < k {
      Pow10Grows(j, k - 1);
    }
  }

  /** atoi: the digits read most significant first. A string of k digits
      stands for less than 10^k. */
  function Atoi(s: string): (n: nat)
    requires AllDigits(s)
    ensures n < Pow10(|s|)
  {
    if |s| == 0 then 0 else 10 * Atoi(s[..|s| - 1]) + DigitValue(s[|s| - 1])
  }

  /** The digits itoa's loop writes for n, without the special case of 0:
      each turn writes n % 10 in front and divides n by 10. */
  function Digits(n: nat): (s: string)
    ensures AllDigits(s) && Atoi(s) == n
    ensures n > 0 ==> |s| > 0 && s[0] != '0' && Pow10(|s| - 1) <= n
    ensures n == 0 <==> s == []
  {
    if n == 0 then []
    else
      var p := Digits(n / 10);
      assert (p + [DigitChar(n % 10)])[..|p|] == p;
      p + [DigitChar(n % 10)]
  }

  /** itoa: "0" for zero, the digits without a leading zero otherwise, and
      nothing for a negative n (the loop never runs). The buffer bounds n to
      MaxDigits digits. */
  function Itoa(n: int): (s: string)
    requires n < Limit
    ensures n == 0 ==> s == "0"
    ensures n < 0 ==> s == []
    ensures n >= 0 ==> AllDigits(s) && 1 <= |s| <= MaxDigits && Atoi(s) == n
    ensures n > 0 ==> s[0] != '0'
  {
    if n == 0 then "0"
    else if n < 0 then []
    else
      var s := Digits(n);
      var proved := if |s| > MaxDigits then LimitIsPow10(); Pow10Grows(MaxDigits, |s| - 1); true else true;
      s
  }

  /** A canonical decimal string: digits only, no leading zero unless it is "0". */
  predicate Canonical(s: string) {
    AllDigits(s) && |s| > 0 && (s[0] != '0' || s == "0")
  }

  lemma {:induction false} DigitsAtoi(s: string)
    requires AllDigits(s) && |s| > 0 && s[0] != '0'
    ensures Digits(Atoi(s)) == s
    decreases |s|
  {
    var p, c := s[..|s| - 1], s[|s| - 1];
    var n := Atoi(s);
    assert n == 10 * Atoi(p) + DigitValue(c);
    assert n / 10 == Atoi(p) && n % 10 == DigitValue(c);
    if |p| == 0 {
      assert Atoi(p) == 0;
      assert n > 0;
      assert Digits(n) == Digits(0) + [DigitChar(DigitValue(c))];
    } else {
      DigitsAtoi(p);
      assert n > 0;
      assert Digits(n) == p + [c];
    }
    assert p + [c] == s;
  }

  /** Both round trips: itoa inverts atoi on canonical strings that fit the
      buffer, and atoi inverts itoa on every id that fits it. */
  lemma ItoaAtoi(s: string)
    requires Canonical(s) && |s| <= MaxDigits
    ensures Atoi(s) < Limit && Itoa(Atoi(s)) == s
  {
    Pow10Grows(|s|, MaxDigits);
    LimitIsPow10();
    if s != "0" {
      DigitsAtoi(s);
    }
  }

  lemma AtoiItoa(n: nat)
    requires n < Limit
    ensures Canonical(Itoa(n)) && Atoi(Itoa(n)) == n
  {
  }

  /** The conversions the unit test lists. */
  lemma ItoaExamples()
    ensures Itoa(0) == "0" && Itoa(1) == "1" && Itoa(9) == "9" && Itoa(10) == "10"
    ensures Itoa(99) == "99" && Itoa(100) == "100"
  {
    assert Digits(1) == ['1'] && Digits(9) == ['9'];
    assert Digits(10) == Digits(1) + ['0'];
    assert Digits(99) == Digits(9) + ['9'];
    assert Digits(100) == Digits(10) + ['0'];
  }

  lemma ItoaMoreExamples()
    ensures Itoa(123) == "123" && Itoa(1000) == "1000" && Itoa(12345) == "12345"
  {
    assert Digits(12) == Digits(1) + ['2'];
    assert Digits(123) == Digits(12) + ['3'];
    assert Digits(1000) == Digits(100) + ['0'];
    assert Digits(1234) == Digits(123) + ['4'];
    assert Digits(12345) == Digits(1234) + ['5'];
  }

  lemma ItoaLongExample()
    ensures Itoa(9876543210) == "9876543210"
  {
    assert Digits(98) == Digits(9) + ['8'];
    assert Digits(987) == Digits(98) + ['7'];
    assert Digits(9876) == Digits(987) + ['6'];
    assert Digits(98765) == Digits(9876) + ['5'];
    assert Digits(987654) == Digits(98765) + ['4'];
    assert Digits(9876543) == Digits(987654) + ['3'];
    assert Digits(98765432) == Digits(9876543) + ['2'];
    assert Digits(987654321) == Digits(98765432) + ['1'];
    assert Digits(9876543210) == Digits(987654321) + ['0'];
  }

  /** Part 1: an even number of digits whose halves agree. */
  predicate Doubled(s: string) {
    |s| % 2 == 0 && s[..|s| / 2] == s[|s| / 2..]
  }

  /** The part 1 test holds exactly of the strings made of one block twice. */
  lemma DoubledIff(s: string)
    ensures Doubled(s) <==> exists t: string :: t + t == s
  {
    if Doubled(s) {
      var t := s[..|s| / 2];
      assert t + t == s;
    }
    if t: string :| t + t == s {
      assert s[..|s| / 2] == t && s[|s| / 2..] == t;
    }
  }

  /** needle occurs at position i of haystack. */
  predicate OccursAt(haystack: string, needle: string, i: int) {
    0 <= i && i + |needle| <= |haystack| && haystack[i..i + |needle|] == needle
  }

  /** bytes.Contains. */
  predicate Contains(haystack: string, needle: string) {
    exists i :: 0 <= i <= |haystack| && OccursAt(haystack, needle, i)
  }

  /** Part 2: s occurs in s doubled once the first and last characters are
      dropped, so that only the occurrences at 1 .. |s|-1 are looked at. */
  predicate SelfRotating(s: string)
    requires |s| > 0
  {
    Contains((s + s)[1..2 * |s| - 1], s)
  }

  /** s turned left by k places. */
  function Rotate(s: string, k: nat): (r: string)
    requires k <= |s|
    ensures |r| == |s|
  {
    s[k..] + s[..k]
  }

  lemma DoubledWindow(s: string, k: nat)
    requires k <= |s|
    ensures (s + s)[k..k + |s|] == Rotate(s, k)
  {
    var n := |s|;
    forall j | 0 <= j < n
      ensures (s + s)[k..k + n][j] == Rotate(s, k)[j]
    {
      if k + j < n {
        assert (s + s)[k + j] == s[k + j];
      } else {
        assert (s + s)[k + j] == s[k + j - n];
      }
    }
  }

  lemma SliceSlice(t: string, a: int, b: int, i: int, j: int)
    requires 0 <= a <= b <= |t| && 0 <= i <= j <= b - a
    ensures t[a..b][i..j] == t[a + i..a + j]
  {
    assert |t[a..b][i..j]| == j - i;
    forall k | 0 <= k < j - i
      ensures t[a..b][i..j][k] == t[a + i..a + j][k]
    {
      assert t[a..b][i..j][k] == t[a..b][i + k] == t[a + i + k];
    }
  }

  lemma RotationFound(s: string, i: int)
    requires |s| > 0 && 0 <= i <= 2 * |s| - 2 && OccursAt((s + s)[1..2 * |s| - 1], s, i)
    ensures 0 < i + 1 < |s| && Rotate(s, i + 1) == s
  {
    SliceSlice(s + s, 1, 2 * |s| - 1, i, i + |s|);
    DoubledWindow(s, i + 1);
  }

  lemma RotationOccurs(s: string, k: int)
    requires 0 < k < |s| && Rotate(s, k) == s
    ensures OccursAt((s + s)[1..2 * |s| - 1], s, k - 1)
  {
    DoubledWindow(s, k);
    SliceSlice(s + s, 1, 2 * |s| - 1, k - 1, k - 1 + |s|);
  }

  /** The part 2 test holds exactly when some proper rotation of s is s
      itself. */
  lemma SelfRotatingIff(s: string)
    requires |s| > 0
    ensures SelfRotating(s) <==> exists k :: 0 < k < |s| && Rotate(s, k) == s
  {
    var w := (s + s)[1..2 * |s| - 1];
    if SelfRotating(s) {
      var i :| 0 <= i <= |w| && OccursAt(w, s, i);
      RotationFound(s, i);
    }
    if k :| 0 < k < |s| && Rotate(s, k) == s {
      RotationOccurs(s, k);
    }
  }

  /** Every id part 1 accepts part 2 accepts too: a doubled block is its own
      rotation by half its length. */
  lemma DoubledSelfRotating(s: string)
    requires |s| > 0 && Doubled(s)
    ensures SelfRotating(s)
  {
    var h := |s| / 2;
    assert Rotate(s, h) == s[h..] + s[..h];
    assert s == s[..h] + s[h..];
    SelfRotatingIff(s);
  }

}
