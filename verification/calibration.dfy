/** Bridge Repair (2024/7/aoc7.go): a calibration line is a target followed
    by operands; it is valid when inserting +, * (and, in part 2, decimal
    concatenation) between the operands, evaluated left to right, gives the
    target. The source undoes the operators from the last operand back to
    the first; Vals is the forward reference it is proved against. */
module Calibration {
  import opened Decimal
  import opened GoInt

  /** log10: the number of decimal digits of n, 0 for n <= 0. */
  function Len(n: int): nat
    decreases if n > 0 then n else 0
  {
    if n <= 0 then 0 else 1 + Len(n / 10)
  }

  method Log10(n: int) returns (i: nat)
    ensures i == Len(n)
  {
    var m := n;
    i := 0;
    while m > 0
      invariant i + Len(m) == Len(n)
      decreases if m > 0 then m else 0
    {
      m := m / 10;
      i := i + 1;
    }
  }

  /** pow10: ten multiplied in n times, 1 for n <= 0. */
  method Power10(n: int) returns (i: nat)
    ensures i == Pow10(if n > 0 then n else 0)
  {
    var k := n;
    i := 1;
    while k > 0
      invariant i * Pow10(if k > 0 then k else 0) == Pow10(if n > 0 then n else 0)
    {
      k := k - 1;
      i := i * 10;
    }
  }

  /** A positive n has Len(n) digits: it lies in [10^(Len-1), 10^Len). */
  lemma {:induction false} LenBounds(n: int)
    requires n > 0
    ensures Len(n) >= 1 && Pow10(Len(n) - 1) <= n < Pow10(Len(n))
    decreases n
  {
    if n >= 10 {
      LenBounds(n / 10);
    }
  }

  /** mask: the power of ten that shifts a number left past n's digits. */
  function Mask(n: int): (m: nat)
    ensures m >= 1
    ensures n >= 0 ==> n < m
  {
    MaskBound(n);
    Pow10(Len(n))
  }

  lemma MaskBound(n: int)
    ensures n >= 0 ==> n < Pow10(Len(n))
  {
    if n > 0 {
      LenBounds(n);
    }
  }

  predicate Positive(s: seq<int>) {
    forall i :: 0 <= i < |s| ==> s[i] > 0
  }

  /** recheck: the operands still to undo, last first. A negative
      accumulator is rejected, a single operand must equal it, otherwise
      concatenation (when allowed), multiplication and addition are undone
      in turn. */
  function Recheck(acc: int, nums: seq<int>, cons: bool): (ok: bool)
    requires |nums| >= 1 && Positive(nums)
    ensures acc < 0 ==> !ok
    ensures acc >= 0 && |nums| == 1 ==> (ok <==> acc == nums[0])
    decreases |nums|
  {
    if acc < 0 then false
    else if |nums| == 1 then acc == nums[0]
    else
      var n := nums[0];
      (cons && acc % Mask(n) == n && Recheck(acc / Mask(n), nums[1..], cons)) ||
      (acc % n == 0 && Recheck(acc / n, nums[1..], cons)) ||
      Recheck(acc - n, nums[1..], cons)
  }

  function Reverse(s: seq<int>): (r: seq<int>)
    ensures |r| == |s|
    ensures forall i :: 0 <= i < |s| ==> r[i] == s[|s| - 1 - i]
  {
    if s == [] then [] else Reverse(s[1..]) + [s[0]]
  }

  /** check: the target is nums[0]; without concatenation the operands are
      first reversed in place so that the last is undone first. With
      concatenation they are used as given: main calls this only after the
      call without it, which has already reversed them. */
  function Check(nums: seq<int>, hascons: bool): bool
    requires |nums| >= 2 && Positive(nums[1..])
  {
    Recheck(nums[0], if !hascons then Reverse(nums[1..]) else nums[1..], hascons)
  }

  /** The switch in main: 1 when the line is valid with + and *, 2 when it
      needs concatenation too (the second call sees the operands the first
      one reversed), 0 otherwise. */
  function Classify(nums: seq<int>): int
    requires |nums| >= 2 && Positive(nums[1..])
  {
    if Check(nums, false) then 1
    else if Check([nums[0]] + Reverse(nums[1..]), true) then 2
    else 0
  }

  /** The reference: every value the operands reach evaluated left to
      right, each step adding, multiplying or (when allowed) concatenating
      the next operand. */
  function Cat(v: int, b: int): int {
    v * Mask(b) + b
  }

  function Extend(vals: set<int>, b: int, cons: bool): set<int> {
    (set v | v in vals :: v + b) + (set v | v in vals :: v * b) +
    (if cons then set v | v in vals :: Cat(v, b) else {})
  }

  function Vals(ops: seq<int>, cons: bool): set<int>
    requires |ops| >= 1
    decreases |ops|
  {
    if |ops| == 1 then {ops[0]}
    else Extend(Vals(ops[..|ops| - 1], cons), ops[|ops| - 1], cons)
  }

  /** Every value positive operands reach is positive. */
  lemma {:induction false} ValsPositive(ops: seq<int>, cons: bool)
    requires |ops| >= 1 && Positive(ops)
    ensures forall v :: v in Vals(ops, cons) ==> v > 0
    decreases |ops|
  {
    if |ops| > 1 {
      var front, b := ops[..|ops| - 1], ops[|ops| - 1];
      ValsPositive(front, cons);
      forall v | v in Vals(front, cons)
        ensures v * b > 0 && Cat(v, b) > 0
      {
        MulPositive(v, b);
        MulPositive(v, Mask(b));
      }
    }
  }

  lemma MulPositive(a: int, b: int)
    requires a > 0 && b > 0
    ensures a * b > 0
  {
  }

  /** A product and a concatenation can be undone exactly. */
  lemma Undo(acc: int, v: int, b: int)
    requires b > 0
    ensures acc == v * b ==> acc % b == 0 && v == acc / b
    ensures acc == Cat(v, b) ==> acc % Mask(b) == b && v == acc / Mask(b)
  {
    if acc == v * b {
      ModUnique(acc, b, v, 0);
    }
    if acc == Cat(v, b) {
      ModUnique(acc, Mask(b), v, b);
    }
  }

  lemma Redo(acc: int, b: int)
    requires acc >= 0 && b > 0
    ensures acc % b == 0 ==> acc == acc / b * b
    ensures acc % Mask(b) == b ==> acc == Cat(acc / Mask(b), b)
  {
    DivMod(acc, b);
    var m := Mask(b);
    DivMod(acc, m);
    assert Cat(acc / m, b) == acc / m * m + b;
  }

  lemma DivMod(a: int, b: int)
    requires b > 0
    ensures a == a / b * b + a % b
  {
  }

  /** recheck over the reversed operands decides membership in Vals. */
  lemma {:induction false} RecheckVals(acc: int, rs: seq<int>, cons: bool)
    requires |rs| >= 1 && Positive(rs)
    ensures Recheck(acc, rs, cons) <==> acc in Vals(Reverse(rs), cons)
    decreases |rs|
  {
    var ops := Reverse(rs);
    ValsPositive(ops, cons);
    if |rs| == 1 {
      assert ops == rs;
    } else if acc >= 0 {
      var b, rest := rs[0], rs[1..];
      var front := Reverse(rest);
      assert ops[..|ops| - 1] == front && ops[|ops| - 1] == b;
      var vals := Vals(front, cons);
      assert Vals(ops, cons) == Extend(vals, b, cons);
      RecheckVals(acc - b, rest, cons);
      RecheckVals(acc / b, rest, cons);
      RecheckVals(acc / Mask(b), rest, cons);
      ExtendMember(acc, vals, b, cons);
    }
  }

  /** One step of the reference, undone: acc is reached with b last exactly
      when one of the three predecessors recheck tries was reached. */
  lemma ExtendMember(acc: int, vals: set<int>, b: int, cons: bool)
    requires acc >= 0 && b > 0
    ensures acc in Extend(vals, b, cons) <==>
      acc - b in vals || (acc % b == 0 && acc / b in vals) ||
      (cons && acc % Mask(b) == b && acc / Mask(b) in vals)
  {
    Redo(acc, b);
    if acc in Extend(vals, b, cons) {
      if v :| v in vals && acc == v * b {
        Undo(acc, v, b);
      } else if v :| cons && v in vals && acc == Cat(v, b) {
        Undo(acc, v, b);
      }
    }
  }

  /** check without concatenation decides the part 1 question. */
  lemma CheckPlain(nums: seq<int>)
    requires |nums| >= 2 && Positive(nums[1..])
    ensures Check(nums, false) <==> nums[0] in Vals(nums[1..], false)
  {
    var ops := nums[1..];
    RecheckVals(nums[0], Reverse(ops), false);
    ReverseTwice(ops);
  }

  lemma ReverseTwice(s: seq<int>)
    ensures Reverse(Reverse(s)) == s
  {
  }

  /** main's switch: 1 for lines valid with + and *, 2 for lines that need
      concatenation, 0 for the rest. */
  lemma ClassifyLine(nums: seq<int>)
    requires |nums| >= 2 && Positive(nums[1..])
    ensures Classify(nums) == 1 <==> nums[0] in Vals(nums[1..], false)
    ensures Classify(nums) == 2 <==>
      nums[0] !in Vals(nums[1..], false) && nums[0] in Vals(nums[1..], true)
  {
    var ops := nums[1..];
    CheckPlain(nums);
    var swapped := [nums[0]] + Reverse(ops);
    assert swapped[0] == nums[0] && swapped[1..] == Reverse(ops);
    RecheckVals(nums[0], Reverse(ops), true);
    ReverseTwice(ops);
  }
}
