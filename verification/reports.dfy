/** Red-Nosed Reports (2024/2/aoc2.go): a report is safe when its levels move
    steadily in one direction by 1 to 3 at each step; the tolerant check may
    drop one level. Gradual and Remove are the reference the scan is proved
    against. */
module Reports {
  function Abs(n: int): nat {
    if n < 0 then -n else n
  }

  /** The step test inside safe's loop, for the trend set by the first two
      levels. */
  predicate Unsafe(diff: int, increasing: bool, decreasing: bool) {
    Abs(diff) < 1 || Abs(diff) > 3 || (increasing && diff <= 0) || (decreasing && diff >= 0)
  }

  /** The change from level j - 1 to level j. */
  function Step(r: seq<int>, j: int): int
    requires 0 < j < |r|
  {
    r[j] - r[j - 1]
  }

  /** remove: the report without its level at index i. */
  function Remove(s: seq<int>, i: int): (r: seq<int>)
    requires 0 <= i < |s|
    ensures |r| == |s| - 1
    ensures forall j :: 0 <= j < i ==> r[j] == s[j]
    ensures forall j :: i <= j < |r| ==> r[j] == s[j + 1]
  {
    s[..i] + s[i + 1..]
  }

  /** safe(report, maxerr): a short report is safe; with an error to spend,
      dropping the first level is tried first; then the levels are scanned
      against the trend of the first two. */
  function Safe(r: seq<int>, maxerr: nat): (ok: bool)
    ensures |r| < 2 ==> ok
    decreases maxerr, |r| + 1
  {
    if |r| < 2 then true
    else if maxerr > 0 && Safe(r[1..], maxerr - 1) then true
    else Scan(r, maxerr, 1, r[1] > r[0], r[1] < r[0])
  }

  /** The loop of safe from index i: at the first unsafe step, fail when no
      error is left, else try dropping either level of that step. */
  function Scan(r: seq<int>, maxerr: nat, i: nat, increasing: bool, decreasing: bool): bool
    requires 1 <= i <= |r|
    decreases maxerr, |r| - i
  {
    if i == |r| then true
    else if Unsafe(Step(r, i), increasing, decreasing) then
      maxerr > 0 && Retry(r, maxerr - 1, i)
    else Scan(r, maxerr, i + 1, increasing, decreasing)
  }

  /** After an unsafe step ending at i: drop the level before it, or its
      own level, and check again with one error fewer. */
  function Retry(r: seq<int>, maxerr: nat, i: nat): bool
    requires 1 <= i < |r|
    decreases maxerr + 1, 0
  {
    Safe(Remove(r, i - 1), maxerr) || Safe(Remove(r, i), maxerr)
  }

  /** Every step of r lies in [lo, hi]. */
  ghost predicate Steps(r: seq<int>, lo: int, hi: int) {
    forall j :: 0 < j < |r| ==> lo <= Step(r, j) <= hi
  }

  /** The reference: all steps rise by 1 to 3, or all fall by 1 to 3. */
  ghost predicate Gradual(r: seq<int>) {
    Steps(r, 1, 3) || Steps(r, -3, -1)
  }

  /** The first unsafe step at or after i, or |r| when there is none. */
  function FirstBad(r: seq<int>, i: nat, increasing: bool, decreasing: bool): (b: nat)
    requires 1 <= i <= |r|
    ensures i <= b <= |r|
    ensures forall j :: i <= j < b ==> !Unsafe(Step(r, j), increasing, decreasing)
    ensures b < |r| ==> Unsafe(Step(r, b), increasing, decreasing)
    decreases |r| - i
  {
    if i == |r| || Unsafe(Step(r, i), increasing, decreasing) then i
    else FirstBad(r, i + 1, increasing, decreasing)
  }

  lemma {:induction false} ScanFirstBad(r: seq<int>, maxerr: nat, i: nat, increasing: bool, decreasing: bool)
    requires 1 <= i <= |r|
    ensures var b := FirstBad(r, i, increasing, decreasing);
      Scan(r, maxerr, i, increasing, decreasing) ==
      (b == |r| || (maxerr > 0 && Retry(r, maxerr - 1, b)))
    decreases |r| - i
  {
    if i < |r| && !Unsafe(Step(r, i), increasing, decreasing) {
      ScanFirstBad(r, maxerr, i + 1, increasing, decreasing);
    }
  }

  /** Once the trend is fixed by the first step, a safe step is one in the
      trend's range. */
  lemma AllSafeSteps(r: seq<int>)
    requires |r| >= 2
    ensures var inc, dec := r[1] > r[0], r[1] < r[0];
      (forall j :: 1 <= j < |r| ==> !Unsafe(Step(r, j), inc, dec)) <==> Gradual(r)
  {
    var inc, dec := r[1] > r[0], r[1] < r[0];
    if 1 <= Step(r, 1) <= 3 {
      forall j | 1 <= j < |r|
        ensures !Unsafe(Step(r, j), inc, dec) <==> 1 <= Step(r, j) <= 3
      {
        Trend(r, 1, 3, Step(r, j));
      }
    } else if -3 <= Step(r, 1) <= -1 {
      forall j | 1 <= j < |r|
        ensures !Unsafe(Step(r, j), inc, dec) <==> -3 <= Step(r, j) <= -1
      {
        Trend(r, -3, -1, Step(r, j));
      }
    } else {
      assert Unsafe(Step(r, 1), inc, dec);
    }
  }

  /** With no error allowed, safe is exactly the reference. */
  lemma SafeStrict(r: seq<int>)
    ensures Safe(r, 0) <==> Gradual(r)
  {
    if |r| >= 2 {
      ScanFirstBad(r, 0, 1, r[1] > r[0], r[1] < r[0]);
      AllSafeSteps(r);
    }
  }

  /** Tolerating one error: safe holds exactly when the report, or the
      report with one level dropped, is gradual. */
  lemma SafeTolerant(r: seq<int>)
    ensures Safe(r, 1) <==> Gradual(r) || exists k :: 0 <= k < |r| && Gradual(Remove(r, k))
  {
    if Safe(r, 1) {
      TolerantSound(r);
    }
    if Gradual(r) {
      SafeStrict(r);
      StrictTolerant(r);
    }
    if k :| 0 <= k < |r| && Gradual(Remove(r, k)) {
      TolerantComplete(r, k);
    }
  }

  lemma TolerantSound(r: seq<int>)
    requires Safe(r, 1)
    ensures Gradual(r) || exists k :: 0 <= k < |r| && Gradual(Remove(r, k))
  {
    if |r| >= 2 {
      if Safe(r[1..], 0) {
        SafeStrict(r[1..]);
        assert Remove(r, 0) == r[1..];
      } else {
        var b := FirstBad(r, 1, r[1] > r[0], r[1] < r[0]);
        ScanSound(r);
        if b < |r| {
          SafeStrict(Remove(r, b - 1));
          SafeStrict(Remove(r, b));
        } else {
          SafeStrict(r);
        }
      }
    }
  }

  /** When dropping the first level does not help, the scan passed, or one
      of the levels of its first unsafe step can be dropped. */
  lemma ScanSound(r: seq<int>)
    requires |r| >= 2 && Safe(r, 1) && !Safe(r[1..], 0)
    ensures var b := FirstBad(r, 1, r[1] > r[0], r[1] < r[0]);
      (b == |r| && Safe(r, 0)) || (b < |r| && (Safe(Remove(r, b - 1), 0) || Safe(Remove(r, b), 0)))
  {
    ScanFirstBad(r, 1, 1, r[1] > r[0], r[1] < r[0]);
    ScanFirstBad(r, 0, 1, r[1] > r[0], r[1] < r[0]);
  }

  /** A report that is already safe stays safe when an error is allowed. */
  lemma StrictTolerant(r: seq<int>)
    requires Safe(r, 0)
    ensures Safe(r, 1)
  {
    if |r| >= 2 {
      var inc, dec := r[1] > r[0], r[1] < r[0];
      ScanFirstBad(r, 0, 1, inc, dec);
      ScanFirstBad(r, 1, 1, inc, dec);
    }
  }

  /** The trend the scan fixes matches the direction of a gradual report
      that keeps the first two levels. */
  lemma Trend(r: seq<int>, lo: int, hi: int, d: int)
    requires |r| >= 2 && ((lo == 1 && hi == 3) || (lo == -3 && hi == -1)) && lo <= Step(r, 1) <= hi
    ensures !Unsafe(d, r[1] > r[0], r[1] < r[0]) <==> lo <= d <= hi
  {
  }

  /** If dropping level k makes the report gradual, safe with one error
      holds: level 0 is tried first, and any other k lies next to the first
      unsafe step the scan finds. */
  lemma TolerantComplete(r: seq<int>, k: nat)
    requires k < |r| && Gradual(Remove(r, k))
    ensures Safe(r, 1)
  {
    var s := Remove(r, k);
    if |r| >= 2 {
      SafeStrict(s);
      if k == 0 {
        assert s == r[1..];
      } else {
        var b := FirstBad(r, 1, r[1] > r[0], r[1] < r[0]);
        DropNear(r, k);
        if b == k {
          assert Remove(r, b) == s;
        } else if b == k + 1 {
          assert Remove(r, b - 1) == s;
        }
        SafeAfterDrop(r, b);
      }
    }
  }

  /** The scan's verdict with one error to spend, from its first unsafe
      step. */
  lemma SafeAfterDrop(r: seq<int>, b: nat)
    requires |r| >= 2 && b == FirstBad(r, 1, r[1] > r[0], r[1] < r[0])
    requires b == |r| || Safe(Remove(r, b - 1), 0) || Safe(Remove(r, b), 0)
    ensures Safe(r, 1)
  {
    ScanFirstBad(r, 1, 1, r[1] > r[0], r[1] < r[0]);
  }

  lemma DropNear(r: seq<int>, k: nat)
    requires 1 <= k < |r| && Gradual(Remove(r, k))
    ensures var b := FirstBad(r, 1, r[1] > r[0], r[1] < r[0]); b == k || b == k + 1 || b == |r|
  {
    var s := Remove(r, k);
    var b := FirstBad(r, 1, r[1] > r[0], r[1] < r[0]);
    var lo, hi := if Steps(s, 1, 3) then 1 else -3, if Steps(s, 1, 3) then 3 else -1;
    if k == 1 {
      BadNearSecond(r, lo, hi, b);
    } else {
      BadNearLater(r, k, lo, hi, b);
    }
  }

  lemma BadNearLater(r: seq<int>, k: nat, lo: int, hi: int, b: nat)
    requires 2 <= k < |r| && ((lo == 1 && hi == 3) || (lo == -3 && hi == -1)) && Steps(Remove(r, k), lo, hi)
    requires 1 <= b <= |r| && (forall j :: 1 <= j < b ==> !Unsafe(Step(r, j), r[1] > r[0], r[1] < r[0]))
    requires b < |r| ==> Unsafe(Step(r, b), r[1] > r[0], r[1] < r[0])
    ensures b == k || b == k + 1 || b == |r|
  {
    var s := Remove(r, k);
    assert Step(s, 1) == Step(r, 1);
    Trend(r, lo, hi, if b < |r| then Step(r, b) else 0);
    assert forall j :: 1 <= j < k ==> Step(r, j) == Step(s, j);
    assert forall j :: k + 2 <= j < |r| ==> Step(r, j) == Step(s, j - 1);
  }

  lemma BadNearSecond(r: seq<int>, lo: int, hi: int, b: nat)
    requires 2 <= |r| && ((lo == 1 && hi == 3) || (lo == -3 && hi == -1)) && Steps(Remove(r, 1), lo, hi)
    requires 1 <= b <= |r| && (forall j :: 1 <= j < b ==> !Unsafe(Step(r, j), r[1] > r[0], r[1] < r[0]))
    requires b < |r| ==> Unsafe(Step(r, b), r[1] > r[0], r[1] < r[0])
    ensures b <= 2 || b == |r|
  {
    if |r| >= 3 {
      var s := Remove(r, 1);
      var inc, dec := r[1] > r[0], r[1] < r[0];
      assert Step(s, 1) == Step(r, 2) + Step(r, 1);
      assert 3 <= b ==> !Unsafe(Step(r, 1), inc, dec) && !Unsafe(Step(r, 2), inc, dec);
      assert 3 <= b ==> lo <= Step(r, 1) <= hi;
      assert forall j :: 3 <= j < |r| ==> Step(r, j) == Step(s, j - 1);
      if 3 <= b {
        Trend(r, lo, hi, if b < |r| then Step(r, b) else 0);
      }
    }
  }
}
