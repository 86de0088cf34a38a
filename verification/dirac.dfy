/** Dirac Dice (2021/21/aoc21.go). Part 1 plays the deterministic die (1 to
    100, three rolls a turn) until a score reaches 1000. Part 2 counts, for
    every universe the three-sided quantum die opens, which player reaches
    21 first; solve always sees the game from the player about to move and
    swaps the players at every turn. Ref is the reference count that keeps
    the players in place, and Outcome the reference deterministic game
    that play's loop is proved to follow. */
module Dirac {
  /** A pawn on cell c moves r cells around the ring 1..10. */
  function Advance(c: nat, r: nat): (n: nat)
    ensures 1 <= n <= 10
  {
    (c + r - 1) % 10 + 1
  }

  /** The 27 sums of three rolls of the quantum die, one per universe. */
  const Rolls: seq<nat> := [3, 4, 5, 4, 5, 6, 5, 6, 7,
                            4, 5, 6, 5, 6, 7, 6, 7, 8,
                            5, 6, 7, 6, 7, 8, 7, 8, 9]

  /** A game from the view of the player to move: its cell and score, then
      the other player's. */
  datatype Game = Game(c1: nat, s1: nat, c2: nat, s2: nat)

  /** Win counts: the player to move first. */
  datatype Wins = Wins(w1: nat, w2: nat)

  function Add(a: Wins, b: Wins): Wins {
    Wins(a.w1 + b.w1, a.w2 + b.w2)
  }

  function Swap(a: Wins): Wins {
    Wins(a.w2, a.w1)
  }

  /** How far the game is from its end: each move adds at least 1 to a
      score below 21. */
  function Left(g: Game): nat {
    if g.s1 >= 21 || g.s2 >= 21 then 0 else 42 - g.s1 - g.s2
  }

  /** The game after the player to move advances r cells; the other player
      is to move next. */
  function Next(g: Game, r: nat): Game {
    var c := Advance(g.c1, r);
    Game(g.c2, g.s2, c, g.s1 + c)
  }

  /** solve without the cache. */
  function Solve(g: Game): Wins
    decreases Left(g), 1
  {
    if g.s1 >= 21 then Wins(1, 0)
    else if g.s2 >= 21 then Wins(0, 1)
    else Branch(g, 0)
  }

  /** The universes of the rolls from index k on, each sub-game's wins
      swapped back to this game's players. */
  function Branch(g: Game, k: nat): Wins
    requires g.s1 < 21 && g.s2 < 21 && k <= |Rolls|
    decreases Left(g), 0, |Rolls| - k
  {
    if k == |Rolls| then Wins(0, 0)
    else Add(Swap(Solve(Next(g, Rolls[k]))), Branch(g, k + 1))
  }

  /** The reference: players in fixed seats, cells a and b, scores x and
      y, seat t to move; a score of 21 wins for its seat. */
  function Ref(a: nat, x: nat, b: nat, y: nat, t: bool): Wins
    decreases Left(Game(a, x, b, y)), 1
  {
    if x >= 21 then Wins(1, 0)
    else if y >= 21 then Wins(0, 1)
    else RefBranch(a, x, b, y, t, 0)
  }

  function RefBranch(a: nat, x: nat, b: nat, y: nat, t: bool, k: nat): Wins
    requires x < 21 && y < 21 && k <= |Rolls|
    decreases Left(Game(a, x, b, y)), 0, |Rolls| - k
  {
    if k == |Rolls| then Wins(0, 0)
    else
      var r := Rolls[k];
      var w := if t then Ref(Advance(a, r), x + Advance(a, r), b, y, false)
               else Ref(a, x, Advance(b, r), y + Advance(b, r), true);
      Add(w, RefBranch(a, x, b, y, t, k + 1))
  }

  /** solve's swapping counts the wins of the right players: seen from seat
      one (t) or seat two (!t) to move, it is the fixed-seat count. Both
      scores at 21 cannot arise in play and are excluded. */
  lemma {:induction false} SolveRef(a: nat, x: nat, b: nat, y: nat, t: bool)
    requires x < 21 || y < 21
    ensures t ==> Solve(Game(a, x, b, y)) == Ref(a, x, b, y, t)
    ensures !t ==> Solve(Game(b, y, a, x)) == Swap(Ref(a, x, b, y, t))
    decreases Left(Game(a, x, b, y)), 1
  {
    if x < 21 && y < 21 {
      if t {
        BranchOne(a, x, b, y, 0);
      } else {
        BranchTwo(a, x, b, y, 0);
      }
    }
  }

  /** Seat one to move: its universes match the reference's. */
  lemma {:induction false} BranchOne(a: nat, x: nat, b: nat, y: nat, k: nat)
    requires x < 21 && y < 21 && k <= |Rolls|
    ensures Branch(Game(a, x, b, y), k) == RefBranch(a, x, b, y, true, k)
    decreases Left(Game(a, x, b, y)), 0, |Rolls| - k
  {
    if k < |Rolls| {
      var r := Rolls[k];
      var c := Advance(a, r);
      var g := Game(a, x, b, y);
      BranchOne(a, x, b, y, k + 1);
      assert Next(g, r) == Game(b, y, c, x + c);
      SolveRef(c, x + c, b, y, false);
      assert Branch(g, k) == Add(Swap(Solve(Next(g, r))), Branch(g, k + 1));
      assert RefBranch(a, x, b, y, true, k) == Add(Ref(c, x + c, b, y, false), RefBranch(a, x, b, y, true, k + 1));
    }
  }

  /** Seat two to move: its universes match the reference's, seats
      swapped. */
  lemma {:induction false} BranchTwo(a: nat, x: nat, b: nat, y: nat, k: nat)
    requires x < 21 && y < 21 && k <= |Rolls|
    ensures Branch(Game(b, y, a, x), k) == Swap(RefBranch(a, x, b, y, false, k))
    decreases Left(Game(a, x, b, y)), 0, |Rolls| - k
  {
    if k < |Rolls| {
      var r := Rolls[k];
      var c := Advance(b, r);
      var g := Game(b, y, a, x);
      BranchTwo(a, x, b, y, k + 1);
      assert Next(g, r) == Game(a, x, c, y + c);
      SolveRef(a, x, c, y + c, true);
      assert Branch(g, k) == Add(Swap(Solve(Next(g, r))), Branch(g, k + 1));
      assert RefBranch(a, x, b, y, false, k) == Add(Ref(a, x, c, y + c, true), RefBranch(a, x, b, y, false, k + 1));
    }
  }

  /** Part 2 from the start: the same counts as the fixed-seat reference
      with player one to move. */
  lemma SolveStart(c1: nat, c2: nat)
    ensures Solve(Game(c1, 0, c2, 0)) == Ref(c1, 0, c2, 0, true)
  {
    SolveRef(c1, 0, c2, 0, true);
  }

  /** Every cache entry holds the count solve would compute. */
  ghost predicate CacheValid(cache: map<Game, Wins>) {
    forall g :: g in cache ==> cache[g] == Solve(g)
  }

  /** solve with the cache: a finished game answers at once, a cached game
      returns its entry, and a new game is resolved roll by roll and
      recorded. The cache never changes an answer. */
  method SolveMemo(g: Game, cache: map<Game, Wins>) returns (w: Wins, cache': map<Game, Wins>)
    requires CacheValid(cache)
    ensures w == Solve(g) && CacheValid(cache')
    decreases Left(g)
  {
    if g.s1 >= 21 {
      return Wins(1, 0), cache;
    }
    if g.s2 >= 21 {
      return Wins(0, 1), cache;
    }
    cache' := cache;
    if g !in cache {
      var count := Wins(0, 0);
      for k := 0 to |Rolls|
        invariant CacheValid(cache')
        invariant Add(count, Branch(g, k)) == Branch(g, 0)
      {
        var c1 := Advance(g.c1, Rolls[k]);
        var sub;
        sub, cache' := SolveMemo(Game(g.c2, g.s2, c1, g.s1 + c1), cache');
        count := Wins(count.w1 + sub.w2, count.w2 + sub.w1);
      }
      cache' := cache'[g := count];
    }
    w := cache'[g];
  }

  /** The deterministic die after showing d: 1 to 100, round and round. */
  function Roll(d: nat): (r: nat)
    ensures 1 <= r <= 100
  {
    d % 100 + 1
  }

  /** What the die shows after k rolls (0 before the first). */
  function Die(k: nat): nat {
    if k == 0 then 0 else (k - 1) % 100 + 1
  }

  lemma RollDie(k: nat)
    ensures Roll(Die(k)) == Die(k + 1)
  {
  }

  /** A turn of three rolls flips which player's turn a multiple of 3
      lands on. */
  lemma TurnParity(n: nat)
    requires n % 3 == 0
    ensures n % 6 == 0 || n % 6 == 3
    ensures (n + 3) % 3 == 0
    ensures (n + 3) % 6 == 0 <==> n % 6 == 3
    ensures (n + 3) % 6 == 3 <==> n % 6 == 0
  {
  }

  /** Where a pawn from c stands once the rolls after the a-th, up to the
      b-th, have moved it: roll k of the game shows Die(k). */
  function Moved(c: nat, a: nat, b: nat): nat
    decreases b - a
  {
    if b <= a then c else Advance(Moved(c, a, b - 1), Die(b))
  }

  /** One turn: the die rolls three times after n rolls, and the player
      at c moves by each roll in turn. */
  method Move(c0: nat, n: nat, d0: nat) returns (c: nat, d: nat)
    requires d0 == Die(n)
    ensures d == Die(n + 3) && c == Moved(c0, n, n + 3) && 1 <= c <= 10
  {
    c, d := c0, d0;
    for i := 0 to 3
      invariant d == Die(n + i)
      invariant c == Moved(c0, n, n + i)
    {
      RollDie(n + i);
      d := Roll(d);
      c := Advance(c, d);
    }
  }

  /** How a deterministic game ends: the roll count, whether player one
      won, and the winner's and loser's scores. */
  datatype End = End(rolls: nat, first: bool, winner: nat, loser: nat)

  /** The reference game, turn by turn: the player to move stands on cur
      with score sc, the other on oth with score so, n rolls are done and
      one says whether player one is to move. The mover's turn is three
      rolls; a score of 1000 ends the game, otherwise the other moves. */
  function Outcome(cur: nat, oth: nat, sc: nat, so: nat, n: nat, one: bool): End
    requires sc < 1000 && so < 1000
    decreases 2000 - sc - so
  {
    var c := Moved(cur, n, n + 3);
    if sc + c >= 1000 then End(n + 3, one, sc + c, so)
    else Outcome(oth, c, so, sc + c, n + 3, !one)
  }

  /** One turn of the reference game: the mover lands on c, and either
      reaches 1000 and ends the game or hands the turn over. */
  lemma OutcomeTurn(cur: nat, oth: nat, sc: nat, so: nat, n: nat, one: bool, c: nat)
    requires sc < 1000 && so < 1000 && c == Moved(cur, n, n + 3)
    ensures sc + c >= 1000 ==> Outcome(cur, oth, sc, so, n, one) == End(n + 3, one, sc + c, so)
    ensures sc + c < 1000 ==> Outcome(cur, oth, sc, so, n, one) == Outcome(oth, c, so, sc + c, n + 3, !one)
  {
  }

  /** How every reference game ends: the winner has 1000 or more, the loser
      less, the roll count is a positive multiple of 3, and player one wins
      exactly on an odd multiple of 3, since turns alternate and player one
      moves after an even multiple. */
  lemma {:induction false} OutcomeEnds(cur: nat, oth: nat, sc: nat, so: nat, n: nat, one: bool)
    requires sc < 1000 && so < 1000 && n % 3 == 0 && (one <==> n % 6 == 0)
    ensures var e := Outcome(cur, oth, sc, so, n, one);
      e.winner >= 1000 && e.loser < 1000 && e.rolls > 0 && e.rolls % 3 == 0 && (e.first <==> e.rolls % 6 == 3)
    decreases 2000 - sc - so
  {
    var c := Moved(cur, n, n + 3);
    TurnParity(n);
    if sc + c < 1000 {
      OutcomeEnds(oth, c, so, sc + c, n + 3, !one);
    }
  }

  /** The answer of part 1: the roll count times the loser's score. */
  function Product(a: nat, b: nat): nat {
    a * b
  }

  /** play: three rolls per turn move the player, the cell is added to the
      score, and the first score of 1000 ends the game with the number of
      rolls times the loser's score. The loop ends exactly as the reference
      game from the starting cells and zero scores does. Turns alternate,
      so player one wins exactly when the roll count is an odd multiple
      of 3. */
  method Play(start1: nat, start2: nat) returns (answer: nat, rolls: nat, first: bool, winner: nat, loser: nat)
    ensures End(rolls, first, winner, loser) == Outcome(start1, start2, 0, 0, 0, true)
    ensures winner >= 1000 && loser < 1000 && answer == Product(rolls, loser)
    ensures rolls > 0 && rolls % 3 == 0 && (first <==> rolls % 6 == 3)
  {
    var c: seq<nat> := [start1, start2];
    var s: seq<nat> := [0, 0];
    var p, n: nat, d := 0, 0, 0;
    ghost var e := Outcome(start1, start2, 0, 0, 0, true);
    while true
      invariant 0 <= p <= 1 && |c| == 2 && |s| == 2
      invariant s[0] < 1000 && s[1] < 1000 && d == Die(n)
      invariant e == Outcome(c[p], c[1 - p], s[p], s[1 - p], n, p == 0)
      decreases 2000 - s[0] - s[1]
    {
      var q := 1 - p;
      var cp;
      cp, d := Move(c[p], n, d);
      OutcomeTurn(c[p], c[q], s[p], s[q], n, p == 0, cp);
      n := n + 3;
      c, s := c[p := cp], s[p := s[p] + cp];
      if s[p] >= 1000 {
        rolls, first, winner, loser := n, p == 0, s[p], s[q];
        answer := Product(rolls, loser);
        assert winner >= 1000 && loser < 1000 && rolls > 0 && rolls % 3 == 0 && (first <==> rolls % 6 == 3) by {
          OutcomeEnds(start1, start2, 0, 0, 0, true);
        }
        return;
      }
      p := q;
    }
  }
}
