/** Secret entrance (2025/1/aoc1.go): a dial of 100 positions turned left
    or right, counting the turns that end on 0 and, for the second
    password, every click at which the dial points at 0.
 */
module Dial {
  import opened GoInt

  /** mod: Go's remainder moved up by b when negative. */
  function Mod(a: int, b: int): (r: int)
    requires b != 0
    ensures b > 0 ==> 0 <= r < b && r == a % b
  {
    RemEuclidean(a, b);
    var m := Rem(a, b);
    if m < 0 then m + b else m
  }

  /** The dial's position and both counters: pwd1 counts the turns that
      end on 0, pwd1 + pwd2 every click that points at 0. */
  datatype Dial = Dial(cur: int, pwd1: int, pwd2: int)

  function Start(): Dial {
    Dial(50, 0, 0)
  }

  /** One line of the input, direction dir and distance n: full turns go
      to pwd2, then the rest of the turn is classified by where it starts
      and ends. */
  function Turn(d: Dial, dir: char, n: nat): (r: Dial)
    requires 0 <= d.cur < 100
    ensures 0 <= r.cur < 100
  {
    var pwd2 := d.pwd2 + n / 100;
    var m := Mod(n, 100);
    var cur := Mod(if dir == 'L' then d.cur + m - 2 * m else d.cur + m, 100);
    if d.cur == 0 then Dial(cur, d.pwd1, pwd2)
    else if cur == 0 then Dial(cur, d.pwd1 + 1, pwd2)
    else if cur > d.cur && dir == 'L' then Dial(cur, d.pwd1, pwd2 + 1)
    else if cur < d.cur && dir == 'R' then Dial(cur, d.pwd1, pwd2 + 1)
    else Dial(cur, d.pwd1, pwd2)
  }

  /** The dial turned click by click: where it ends, and how many clicks
      point it at 0. Every direction but L turns right. */
  function After(p: int, dir: char, n: nat): int {
    if dir == 'L' then (p - n) % 100 else (p + n) % 100
  }

  function Clicks(p: int, dir: char, n: nat): (c: nat)
    decreases n
  {
    if n == 0 then 0
    else
      var q := (if dir == 'L' then p - 1 else p + 1) % 100;
      (if q == 0 then 1 else 0) + Clicks(q, dir, n - 1)
  }

  /** Turning right from p, the clicks at 0 are the hundreds passed. */
  lemma {:induction false} ClicksRight(p: int, dir: char, n: nat)
    requires 0 <= p < 100 && dir != 'L'
    ensures Clicks(p, dir, n) == (p + n) / 100
    decreases n
  {
    if n > 0 {
      ClicksRight((p + 1) % 100, dir, n - 1);
    }
  }

  /** Turning left from p, the first click at 0 comes after p clicks (100
      from 0 itself), then one every 100. */
  lemma {:induction false} ClicksLeft(p: int, n: nat)
    requires 0 <= p < 100
    ensures Clicks(p, 'L', n) == (n + (100 - p) % 100) / 100
    decreases n
  {
    if n > 0 {
      var q := (p - 1) % 100;
      ClicksLeft(q, n - 1);
      LeftStep(p, n);
    }
  }

  /** One click left from p: the click at 0 and the rest add up. */
  lemma LeftStep(p: int, n: int)
    requires 0 <= p < 100 && n >= 1
    ensures var q := (p - 1) % 100;
      (if q == 0 then 1 else 0) + (n - 1 + (100 - q) % 100) / 100 == (n + (100 - p) % 100) / 100
  {
    var q := (p - 1) % 100;
    if p == 0 {
      assert q == 99 && (100 - q) % 100 == 1 && (100 - p) % 100 == 0;
    } else if p == 1 {
      assert q == 0 && (100 - q) % 100 == 0 && (100 - p) % 100 == 99;
      UpHundred(n - 1);
    } else {
      assert q == p - 1 && (100 - q) % 100 == 101 - p && (100 - p) % 100 == 100 - p;
    }
  }

  lemma UpHundred(x: int)
    ensures (x + 100) / 100 == x / 100 + 1
  {
  }

  /** Whole rounds do not move the dial. */
  lemma Rounds(x: int, q: int)
    ensures (x + 100 * q) % 100 == x % 100
  {
    ModUnique(x + 100 * q, 100, x / 100 + q, x % 100);
  }

  /** The turn leaves the dial where turning click by click does. */
  lemma TurnPosition(d: Dial, dir: char, n: nat)
    requires 0 <= d.cur < 100
    ensures Turn(d, dir, n).cur == After(d.cur, dir, n)
  {
    var m, q := n % 100, n / 100;
    assert Mod(n, 100) == m;
    if dir == 'L' {
      Rounds(d.cur - m, -q);
    } else {
      Rounds(d.cur + m, q);
    }
  }

  /** pwd1 + pwd2 grows by exactly the clicks that point the dial at 0. */
  lemma TurnCountsClicks(d: Dial, dir: char, n: nat)
    requires 0 <= d.cur < 100 && (dir == 'L' || dir == 'R')
    ensures var r := Turn(d, dir, n);
      r.pwd1 + r.pwd2 == d.pwd1 + d.pwd2 + Clicks(d.cur, dir, n)
  {
    if dir == 'L' {
      TurnCountsLeft(d, n);
    } else {
      TurnCountsRight(d, n);
    }
  }

  lemma TurnCountsRight(d: Dial, n: nat)
    requires 0 <= d.cur < 100
    ensures var r := Turn(d, 'R', n);
      r.pwd1 + r.pwd2 == d.pwd1 + d.pwd2 + Clicks(d.cur, 'R', n)
  {
    var p, m, q := d.cur, n % 100, n / 100;
    assert Mod(n, 100) == m;
    ClicksRight(p, 'R', n);
    assert (p + n) / 100 == q + (p + m) / 100 by {
      ModUnique(p + n, 100, q + (p + m) / 100, (p + m) % 100);
    }
    var cur := Turn(d, 'R', n).cur;
    assert cur == if p + m >= 100 then p + m - 100 else p + m;
  }

  lemma TurnCountsLeft(d: Dial, n: nat)
    requires 0 <= d.cur < 100
    ensures var r := Turn(d, 'L', n);
      r.pwd1 + r.pwd2 == d.pwd1 + d.pwd2 + Clicks(d.cur, 'L', n)
  {
    ClicksLeft(d.cur, n);
    LeftSplit(d.cur, n);
    LeftTurn(d, n);
  }

  /** Left from p, the clicks at 0 are the full turns plus one when the
      rest of the turn reaches 0 from a non-zero start. */
  lemma LeftSplit(p: int, n: nat)
    requires 0 <= p < 100
    ensures (n + (100 - p) % 100) / 100 == n / 100 + (if p != 0 && n % 100 >= p then 1 else 0)
  {
    var m, q := n % 100, n / 100;
    var e := if p == 0 then 0 else 100 - p;
    assert (100 - p) % 100 == e;
    assert (n + e) / 100 == q + (m + e) / 100 by {
      ModUnique(n + e, 100, q + (m + e) / 100, (m + e) % 100);
    }
    if p != 0 && m >= p {
      assert 100 <= m + e < 200;
    } else {
      assert 0 <= m + e < 100;
    }
  }

  /** The counters a left turn adds: the full turns, plus one when the rest
      of the turn reaches 0 from a non-zero start. */
  lemma LeftTurn(d: Dial, n: nat)
    requires 0 <= d.cur < 100
    ensures var r := Turn(d, 'L', n);
      r.pwd1 + r.pwd2 == d.pwd1 + d.pwd2 + n / 100 + (if d.cur != 0 && n % 100 >= d.cur then 1 else 0)
  {
    var p, m := d.cur, n % 100;
    assert Mod(n, 100) == m;
    var x := p + m - 2 * m;
    SmallMod(x);
    var r := Turn(d, 'L', n);
    LeftCounters(d, n, r.cur);
    LeftCases(p, m, r.cur);
  }

  /** How a left turn that ends at cur moves the counters. */
  lemma LeftCounters(d: Dial, n: nat, cur: int)
    requires 0 <= d.cur < 100 && Turn(d, 'L', n).cur == cur
    ensures var r := Turn(d, 'L', n);
      r.pwd1 + r.pwd2 == d.pwd1 + d.pwd2 + n / 100 + (if d.cur != 0 && (cur == 0 || cur > d.cur) then 1 else 0)
  {
  }

  /** Left by m < 100 from p: the dial lands on 0 or passes it exactly
      when m reaches p. */
  lemma LeftCases(p: int, m: int, cur: int)
    requires 0 <= p < 100 && 0 <= m < 100 && cur == (if p - m < 0 then p - m + 100 else p - m)
    ensures (p != 0 && (cur == 0 || cur > p)) <==> (p != 0 && m >= p)
  {
  }

  lemma SmallMod(x: int)
    requires -100 < x < 100
    ensures x % 100 == if x < 0 then x + 100 else x
  {
  }

  /** pwd1 grows by one exactly when a turn from a non-zero position ends
      on 0, and a turn from 0 never moves pwd1 or counts beyond its full
      turns. */
  lemma TurnLanding(d: Dial, dir: char, n: nat)
    requires 0 <= d.cur < 100
    ensures var r := Turn(d, dir, n);
      r.pwd1 == d.pwd1 + (if d.cur != 0 && r.cur == 0 then 1 else 0) &&
      (d.cur == 0 ==> r.pwd2 == d.pwd2 + n / 100)
  {
  }

  /** A turn by a whole number of rounds from 0 ends on 0 but is not
      counted as a landing. */
  lemma LandingFromZeroMissed()
    ensures var r := Turn(Dial(0, 0, 0), 'R', 100); r.cur == 0 && r.pwd1 == 0
  {
  }

  /** Separate counters for the two passwords: landings counts every turn
      that ends on 0, hits every click at 0. */
  datatype Passwords = Passwords(cur: int, landings: int, hits: int)

  function TurnFixed(d: Passwords, dir: char, n: nat): (r: Passwords)
    requires 0 <= d.cur < 100
    ensures 0 <= r.cur < 100
  {
    var c := Turn(Dial(d.cur, 0, 0), dir, n);
    Passwords(c.cur, d.landings + (if c.cur == 0 then 1 else 0), d.hits + c.pwd1 + c.pwd2)
  }

  /** landings grows by one exactly when the turn ends on 0, from
      anywhere, and hits by the clicks at 0. */
  lemma TurnFixedCounts(d: Passwords, dir: char, n: nat)
    requires 0 <= d.cur < 100 && (dir == 'L' || dir == 'R')
    ensures var r := TurnFixed(d, dir, n);
      r.landings == d.landings + (if After(d.cur, dir, n) == 0 then 1 else 0) &&
      r.hits == d.hits + Clicks(d.cur, dir, n)
  {
    TurnPosition(Dial(d.cur, 0, 0), dir, n);
    TurnCountsClicks(Dial(d.cur, 0, 0), dir, n);
  }
}
