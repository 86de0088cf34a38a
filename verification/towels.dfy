/** Linen Layout (2024/19/aoc19.go): towel patterns are stored in a trie, and
    a design is counted by the number of ways to write it as a sequence of
    patterns. Splits is the reference count match is proved against; the
    memoised search is proved to return the plain recursion's value. */
module Towels {
  import opened Wrappers

  /** A trie node: children by character, and whether a pattern ends here. */
  datatype Trie = Node(next: map<char, Trie>, stop: bool)

  function Empty(): Trie {
    Node(map[], false)
  }

  /** The node reached from t by following the characters of p. */
  function Find(t: Trie, p: string): Option<Trie>
    decreases |p|
  {
    if p == [] then Some(t)
    else if p[0] in t.next then Find(t.next[p[0]], p[1..])
    else None
  }

  predicate Has(t: Trie, p: string) {
    Find(t, p).Some?
  }

  predicate Stops(t: Trie, p: string) {
    Find(t, p).Some? && Find(t, p).value.stop
  }

  predicate IsPrefix(p: string, w: string) {
    |p| <= |w| && w[..|p|] == p
  }

  /** build's inner loop for one pattern: walk down, creating the missing
      nodes, and mark the last one. */
  function Insert(t: Trie, u: string): Trie
    decreases |u|
  {
    if u == [] then t.(stop := true)
    else
      var child := if u[0] in t.next then t.next[u[0]] else Empty();
      t.(next := t.next[u[0] := Insert(child, u[1..])])
  }

  /** build: every pattern inserted into one root, first to last. */
  function Build(words: seq<string>): Trie {
    if words == [] then Empty() else Insert(Build(words[..|words| - 1]), words[|words| - 1])
  }

  lemma {:induction false} EmptyFind(p: string)
    ensures Has(Empty(), p) <==> p == []
    ensures !Stops(Empty(), p)
  {
  }

  /** Inserting u adds exactly the prefixes of u as paths and u as a
      pattern. */
  lemma {:induction false} InsertFind(t: Trie, u: string, p: string)
    ensures Has(Insert(t, u), p) <==> Has(t, p) || IsPrefix(p, u)
    ensures Stops(Insert(t, u), p) <==> Stops(t, p) || p == u
    decreases |u|
  {
    if u != [] && p != [] {
      var c := u[0];
      var child := if c in t.next then t.next[c] else Empty();
      if p[0] == c {
        InsertFind(child, u[1..], p[1..]);
        if c !in t.next {
          EmptyFind(p[1..]);
        }
        assert IsPrefix(p, u) <==> IsPrefix(p[1..], u[1..]) by {
          if |p| <= |u| {
            assert u[..|p|] == [c] + u[1..][..|p| - 1];
            assert p == [p[0]] + p[1..];
          }
        }
        assert p == u <==> p[1..] == u[1..] by {
          assert p == [p[0]] + p[1..] && u == [c] + u[1..];
        }
      } else {
        assert !IsPrefix(p, u) by {
          if |p| <= |u| {
            assert u[..|p|][0] == c;
          }
        }
      }
    }
  }

  /** The trie build returns holds exactly the patterns as stopping paths,
      and exactly their prefixes as paths. */
  lemma {:induction false} BuildFind(words: seq<string>, p: string)
    ensures Stops(Build(words), p) <==> p in words
    ensures Has(Build(words), p) <==> p == [] || exists i :: 0 <= i < |words| && IsPrefix(p, words[i])
    decreases |words|
  {
    if words == [] {
      EmptyFind(p);
    } else {
      var front, w := words[..|words| - 1], words[|words| - 1];
      BuildFind(front, p);
      InsertFind(Build(front), w, p);
      assert words == front + [w];
      if exists i :: 0 <= i < |words| && IsPrefix(p, words[i]) {
        var i :| 0 <= i < |words| && IsPrefix(p, words[i]);
        if i < |front| {
          assert words[i] == front[i];
        }
      }
    }
  }

  /** The distinct patterns of the list. */
  function Patterns(words: seq<string>): set<string> {
    set w | w in words
  }

  /** The reference: the number of ways to write line as a sequence of
      non-empty patterns from ws. */
  function Splits(line: string, ws: set<string>): nat
    decreases |line|, |line| + 1
  {
    if line == [] then 1 else Tail(line, ws, 1)
  }

  /** The ways whose first pattern has length k or more. */
  function Tail(line: string, ws: set<string>, k: nat): nat
    requires 1 <= k
    decreases |line|, |line| + 1 - k
  {
    if k > |line| then 0
    else (if line[..k] in ws then Splits(line[k..], ws) else 0) + Tail(line, ws, k + 1)
  }

  /** dfs(start) without the memo: 1 at the end of the line, else the sum
      over the patterns the trie finds starting at start. */
  function Dfs(line: string, t: Trie, start: nat): nat
    requires start <= |line|
    decreases |line| - start, 1
  {
    if start == |line| then 1 else Walk(line, t, start, t, start)
  }

  /** The loop of dfs from index i, at node cur: stop at the first character
      without a child, count the ways after every stopping node. */
  function Walk(line: string, t: Trie, start: nat, cur: Trie, i: nat): nat
    requires start <= i <= |line|
    decreases |line| - i, 0
  {
    if i == |line| || line[i] !in cur.next then 0
    else
      var nx := cur.next[line[i]];
      (if nx.stop then Dfs(line, t, i + 1) else 0) + Walk(line, t, start, nx, i + 1)
  }

  lemma {:induction false} FindSnoc(t: Trie, p: string, c: char)
    ensures Find(t, p + [c]) ==
      if Find(t, p).Some? && c in Find(t, p).value.next then Some(Find(t, p).value.next[c]) else None
    decreases |p|
  {
    if p != [] {
      assert (p + [c])[1..] == p[1..] + [c];
      if p[0] in t.next {
        FindSnoc(t.next[p[0]], p[1..], c);
      }
    }
  }

  /** A path that is missing has no pattern below it. */
  lemma NoPatternBelow(words: seq<string>, p: string, q: string)
    requires !Has(Build(words), p) && IsPrefix(p, q)
    ensures q !in words
  {
    BuildFind(words, p);
  }

  lemma {:induction false} TailMissing(words: seq<string>, line: string, k: nat)
    requires 1 <= k && (k > |line| || !Has(Build(words), line[..k]))
    ensures forall m :: k <= m <= |line| ==> line[..m] !in words
  {
    forall m | k <= m <= |line|
      ensures line[..m] !in words
    {
      NoPatternBelow(words, line[..k], line[..m]);
    }
  }

  lemma {:induction false} TailZero(line: string, ws: set<string>, k: nat)
    requires 1 <= k && forall m :: k <= m <= |line| ==> line[..m] !in ws
    ensures Tail(line, ws, k) == 0
    decreases |line| + 1 - k
  {
    if k <= |line| {
      TailZero(line, ws, k + 1);
    }
  }

  /** dfs counts the splits of the rest of the line. */
  lemma {:induction false} DfsSplits(line: string, words: seq<string>, start: nat)
    requires start <= |line|
    ensures Dfs(line, Build(words), start) == Splits(line[start..], Patterns(words))
    decreases |line| - start, 1
  {
    if start < |line| {
      assert line[start..][..0] == [];
      WalkTail(line, words, start, start);
    }
  }

  /** The loop at i, standing on the node of line[start..i], counts the
      splits whose first pattern is longer than i - start. */
  lemma {:induction false} WalkTail(line: string, words: seq<string>, start: nat, i: nat)
    requires start <= i <= |line| && Has(Build(words), line[start..][..i - start])
    ensures var t := Build(words);
      Walk(line, t, start, Find(t, line[start..][..i - start]).value, i) ==
      Tail(line[start..], Patterns(words), i - start + 1)
    decreases |line| - i, 0
  {
    var t, rest, ws := Build(words), line[start..], Patterns(words);
    var p := rest[..i - start];
    var cur := Find(t, p).value;
    if i < |line| {
      var q := rest[..i - start + 1];
      assert q == p + [line[i]];
      FindSnoc(t, p, line[i]);
      if line[i] in cur.next {
        var nx := cur.next[line[i]];
        BuildFind(words, q);
        assert rest[i - start + 1..] == line[i + 1..];
        DfsSplits(line, words, i + 1);
        WalkTail(line, words, start, i + 1);
      } else {
        TailMissing(words, rest, i - start + 1);
        TailZero(rest, ws, i - start + 1);
      }
    }
  }

  /** match: the splits of the whole line. */
  lemma MatchSplits(line: string, words: seq<string>)
    ensures Dfs(line, Build(words), 0) == Splits(line, Patterns(words))
  {
    DfsSplits(line, words, 0);
  }

  /** A memo entry holds dfs's value. */
  ghost predicate MemoValid(line: string, t: Trie, memo: map<nat, nat>) {
    forall k :: k in memo ==> k <= |line| && memo[k] == Dfs(line, t, k)
  }

  /** dfs with the memo: a recorded start returns its stored count, and
      every count computed is recorded. The memo never changes a result. */
  method DfsMemo(line: string, t: Trie, start: nat, memo: map<nat, nat>) returns (count: nat, memo': map<nat, nat>)
    requires start <= |line| && MemoValid(line, t, memo)
    ensures count == Dfs(line, t, start) && MemoValid(line, t, memo')
    decreases |line| - start
  {
    if start == |line| {
      return 1, memo;
    }
    if start in memo {
      return memo[start], memo;
    }
    count := 0;
    memo' := memo;
    var cur := t;
    var i := start;
    while i < |line|
      invariant start <= i <= |line| && MemoValid(line, t, memo')
      invariant count + Walk(line, t, start, cur, i) == Dfs(line, t, start)
      decreases |line| - i
    {
      if line[i] in cur.next {
        cur := cur.next[line[i]];
        if cur.stop {
          var c;
          c, memo' := DfsMemo(line, t, i + 1, memo');
          count := count + c;
        }
      } else {
        break;
      }
      i := i + 1;
    }
    memo' := memo'[start := count];
  }

  /** match with its memo starting empty. */
  method Match(line: string, t: Trie) returns (n: nat)
    ensures n == Dfs(line, t, 0)
  {
    var memo;
    n, memo := DfsMemo(line, t, 0, map[]);
  }
}
