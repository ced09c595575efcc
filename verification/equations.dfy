/** Calibration equations (day_7): a test value and a list of numbers that
    the search tries to combine, strictly left to right, with the operators
    of `_OPERATORS`. This module holds what both search implementations
    share: the values they compute with, the operators, and reference
    definitions of what it means for an equation to be solved. */
module Equations {
  import opened Wrappers

  /** An entry of `_OPERATORS`. Other stands for any string the operator
      dispatch does not recognise. */
  datatype Op = Add | Mul | Cat | Other

  /** A JavaScript number as the search sees it. None is NaN, and also
      `undefined` (a missing array entry), which arithmetic turns into NaN. */
  type Num = Option<int>

  /** One parsed line `[test, [numbers]]`. */
  datatype Equation = Equation(test: Num, nums: seq<Num>)

  /** `_OPERATORS` in part 1 and in part 2, in their order. */
  const Part1Ops: seq<Op> := [Add, Mul]
  const Part2Ops: seq<Op> := [Add, Mul, Cat]

  /** `a > b`: false whenever either side is NaN. */
  predicate Greater(a: Num, b: Num) {
    a.Some? && b.Some? && a.value > b.value
  }

  /** `nums[i]`, undefined past the end. */
  function Item(nums: seq<Num>, i: nat): Num {
    if i < |nums| then nums[i] else None
  }

  /** `nums.slice(i)`. */
  function Drop(nums: seq<Num>, i: nat): (r: seq<Num>)
    ensures i <= |nums| ==> r == nums[i..]
    ensures i > |nums| ==> r == []
  {
    if i <= |nums| then nums[i..] else []
  }

  /** All numbers are defined and at least 1. */
  predicate Positive(nums: seq<Num>) {
    forall i :: 0 <= i < |nums| ==> nums[i].Some? && nums[i].value >= 1
  }

  /** An equation as the puzzle supplies them: a defined, non-negative
      test and at least two positive numbers. */
  predicate WellFormed(e: Equation) {
    e.test.Some? && e.test.value >= 0 && |e.nums| >= 2 && Positive(e.nums)
  }

  /** An equation the search may meet in parsed input: a well-formed one,
      or a line with no numbers, such as the empty line `parseInput` makes
      of the text after the input's final line break. */
  predicate Admissible(e: Equation) {
    WellFormed(e) || e.nums == []
  }

  /** One operator applied by the search's operator dispatch. */
  function Step(perform: (Op, Num, Num) -> Num, op: Op, l: Num, r: Num): Num {
    perform(op, l, r)
  }

  /** Reference for what the search reports: starting from acc, some
      choice of operators, applied left to right to the numbers, reaches t
      after one or more of the numbers, not necessarily all of them. */
  ghost predicate Hits(perform: (Op, Num, Num) -> Num, ops: seq<Op>, t: int, acc: Num, nums: seq<Num>)
    decreases |nums|
  {
    |nums| > 0 &&
    exists k :: 0 <= k < |ops| &&
      (Step(perform, ops[k], acc, nums[0]) == Some(t) || Hits(perform, ops, t, Step(perform, ops[k], acc, nums[0]), nums[1..]))
  }

  /** The puzzle's own question: some choice of operators, applied left to
      right to all the numbers, gives t. */
  ghost predicate Solvable(perform: (Op, Num, Num) -> Num, ops: seq<Op>, t: int, acc: Num, nums: seq<Num>)
    decreases |nums|
  {
    if |nums| == 0 then acc == Some(t)
    else exists k :: 0 <= k < |ops| && Solvable(perform, ops, t, Step(perform, ops[k], acc, nums[0]), nums[1..])
  }

  /** What the pruning needs of an operator: on a non-negative left side
      and a positive right side it gives a defined value no smaller than the
      left side; and NaN on the left stays NaN. */
  ghost predicate Grows(perform: (Op, Num, Num) -> Num, op: Op, l: Num, r: Num) {
    && (l.Some? && 0 <= l.value && r.Some? && 1 <= r.value ==>
          perform(op, l, r).Some? && perform(op, l, r).value >= l.value)
    && (l.None? ==> perform(op, l, r).None?)
  }

  /** Every operator in ops grows in that sense. */
  ghost predicate NonDecreasing(perform: (Op, Num, Num) -> Num, ops: seq<Op>) {
    forall k, l: Num, r: Num :: 0 <= k < |ops| ==> Grows(perform, ops[k], l, r)
  }

  /** Whether the search reports equation e solved with these operators:
      only a well-formed equation can be. */
  ghost predicate EqHits(perform: (Op, Num, Num) -> Num, ops: seq<Op>, e: Equation) {
    WellFormed(e) && Hits(perform, ops, e.test.value, e.nums[0], e.nums[1..])
  }

  /** The score the reference gives each equation: its test value when the
      search reports it solved, 0 otherwise. */
  ghost function HitValues(perform: (Op, Num, Num) -> Num, ops: seq<Op>, eqs: seq<Equation>): (r: seq<int>)
    ensures |r| == |eqs|
    ensures forall i :: 0 <= i < |eqs| ==> r[i] == (if EqHits(perform, ops, eqs[i]) then eqs[i].test.value else 0)
  {
    seq(|eqs|, i requires 0 <= i < |eqs| => if EqHits(perform, ops, eqs[i]) then eqs[i].test.value else 0)
  }

  /** Once every operator result is at least its left side, a running value
      above t stays above it: nothing from there on reaches t. */
  lemma {:induction false} NoHitAbove(perform: (Op, Num, Num) -> Num, ops: seq<Op>, t: int, acc: Num, nums: seq<Num>)
    requires NonDecreasing(perform, ops) && Positive(nums)
    requires acc.Some? && 0 <= acc.value && t < acc.value
    ensures !Hits(perform, ops, t, acc, nums)
    decreases |nums|, 1
  {
    if |nums| > 0 {
      forall k | 0 <= k < |ops|
        ensures Step(perform, ops[k], acc, nums[0]) != Some(t)
        ensures !Hits(perform, ops, t, Step(perform, ops[k], acc, nums[0]), nums[1..])
      {
        NoHitVia(perform, ops, t, acc, nums, k);
      }
    }
  }

  lemma {:induction false} NoHitVia(perform: (Op, Num, Num) -> Num, ops: seq<Op>, t: int, acc: Num, nums: seq<Num>, k: nat)
    requires NonDecreasing(perform, ops) && Positive(nums)
    requires acc.Some? && 0 <= acc.value && t < acc.value && |nums| > 0 && k < |ops|
    ensures Step(perform, ops[k], acc, nums[0]) != Some(t)
    ensures !Hits(perform, ops, t, Step(perform, ops[k], acc, nums[0]), nums[1..])
    decreases |nums|, 0
  {
    PositiveTail(nums);
    StepAtLeast(perform, ops, k, acc, nums[0]);
    NoHitAbove(perform, ops, t, Step(perform, ops[k], acc, nums[0]), nums[1..]);
  }

  lemma PositiveTail(nums: seq<Num>)
    requires |nums| > 0 && Positive(nums)
    ensures nums[0].Some? && nums[0].value >= 1 && Positive(nums[1..])
  {
    forall i | 0 <= i < |nums| - 1
      ensures nums[1..][i].Some? && nums[1..][i].value >= 1
    {
      assert nums[1..][i] == nums[i + 1];
    }
  }

  lemma StepAtLeast(perform: (Op, Num, Num) -> Num, ops: seq<Op>, k: nat, acc: Num, r: Num)
    requires NonDecreasing(perform, ops) && k < |ops|
    requires acc.Some? && acc.value >= 0 && r.Some? && r.value >= 1
    ensures Step(perform, ops[k], acc, r).Some? && Step(perform, ops[k], acc, r).value >= acc.value
  {
    assert Grows(perform, ops[k], acc, r);
  }

  /** Every equation the puzzle counts as solvable is reported solved. */
  lemma {:induction false} SolvableHits(perform: (Op, Num, Num) -> Num, ops: seq<Op>, t: int, acc: Num, nums: seq<Num>)
    requires |nums| >= 1 && Solvable(perform, ops, t, acc, nums)
    ensures Hits(perform, ops, t, acc, nums)
    decreases |nums|
  {
    var k :| 0 <= k < |ops| && Solvable(perform, ops, t, Step(perform, ops[k], acc, nums[0]), nums[1..]);
    var v := Step(perform, ops[k], acc, nums[0]);
    if |nums| > 1 {
      SolvableHits(perform, ops, t, v, nums[1..]);
    }
  }

  /** Offering more operators loses no success. */
  lemma {:induction false} HitsMoreOps(perform: (Op, Num, Num) -> Num, ops: seq<Op>, more: seq<Op>, t: int, acc: Num, nums: seq<Num>)
    requires forall k :: 0 <= k < |ops| ==> ops[k] in more
    requires Hits(perform, ops, t, acc, nums)
    ensures Hits(perform, more, t, acc, nums)
    decreases |nums|
  {
    var k :| 0 <= k < |ops| &&
      (Step(perform, ops[k], acc, nums[0]) == Some(t) || Hits(perform, ops, t, Step(perform, ops[k], acc, nums[0]), nums[1..]));
    var j :| 0 <= j < |more| && more[j] == ops[k];
    var v := Step(perform, ops[k], acc, nums[0]);
    if v != Some(t) {
      HitsMoreOps(perform, ops, more, t, v, nums[1..]);
    }
    assert Step(perform, more[j], acc, nums[0]) == v;
  }

  /** `handleRecursion`, the same in both files: apply one operator; -1
      prunes a result above the test, the test itself is a success,
      otherwise continue with the rest of the line and pass on only a
      success. `perform` is the file's `performOperation`. */
  function Handle(perform: (Op, Num, Num) -> Num, skipPruned: bool, ops: seq<Op>, op: Op,
                  test: Num, left: Num, right: Num, line: seq<Num>): (r: int)
    ensures r == -1 || r == 0 || Some(r) == test
    decreases |line|, 0
  {
    var outcome := Step(perform, op, left, right);
    if Greater(outcome, test) then -1
    else if outcome.Some? && outcome == test then outcome.value
    else if |line| > 0 then
      var res := Branches(perform, skipPruned, ops, test, outcome, line[0], line[1..]);
      if Some(res) == test then res else 0
    else 0
  }

  /** `startNewRecursionBranches` (skipPruned false) and `recurseSolution`
      (skipPruned true, the worker's `if (res === -1) continue`): try the
      operators in order and return the first success, else 0. */
  function Branches(perform: (Op, Num, Num) -> Num, skipPruned: bool, ops: seq<Op>,
                    test: Num, left: Num, right: Num, line: seq<Num>): (r: int)
    ensures r == 0 || (Some(r) == test && (skipPruned ==> r != -1))
    decreases |line|, 2
  {
    BranchesFrom(perform, skipPruned, ops, 0, test, left, right, line)
  }

  function BranchesFrom(perform: (Op, Num, Num) -> Num, skipPruned: bool, ops: seq<Op>, k: nat,
                        test: Num, left: Num, right: Num, line: seq<Num>): (r: int)
    requires k <= |ops|
    ensures r == 0 || (Some(r) == test && (skipPruned ==> r != -1))
    decreases |line|, 1, |ops| - k
  {
    if k == |ops| then 0
    else
      var res := Handle(perform, skipPruned, ops, ops[k], test, left, right, line);
      if skipPruned && res == -1 then BranchesFrom(perform, skipPruned, ops, k + 1, test, left, right, line)
      else if Some(res) == test then res
      else BranchesFrom(perform, skipPruned, ops, k + 1, test, left, right, line)
  }

  /** Operator ops[k] leads to t from left, right, line. */
  ghost predicate HitVia(perform: (Op, Num, Num) -> Num, ops: seq<Op>, k: nat, t: int, left: Num, right: Num, line: seq<Num>)
    requires k < |ops|
  {
    Step(perform, ops[k], left, right) == Some(t) || Hits(perform, ops, t, Step(perform, ops[k], left, right), line)
  }

  /** Some operator from ops[k] on leads to t. */
  ghost predicate AnyHit(perform: (Op, Num, Num) -> Num, ops: seq<Op>, k: nat, t: int, left: Num, right: Num, line: seq<Num>) {
    exists j :: k <= j < |ops| && HitVia(perform, ops, j, t, left, right, line)
  }

  lemma AnyHitStep(perform: (Op, Num, Num) -> Num, ops: seq<Op>, k: nat, t: int, left: Num, right: Num, line: seq<Num>)
    requires k < |ops|
    ensures AnyHit(perform, ops, k, t, left, right, line) <==>
      HitVia(perform, ops, k, t, left, right, line) || AnyHit(perform, ops, k + 1, t, left, right, line)
  {
    if AnyHit(perform, ops, k, t, left, right, line) && !HitVia(perform, ops, k, t, left, right, line) {
      var j :| k <= j < |ops| && HitVia(perform, ops, j, t, left, right, line);
      assert j != k;
    }
  }

  /** The operands the exactness results need: growing operators, a
      non-negative test, a non-negative running value, positive numbers. */
  ghost predicate Ready(perform: (Op, Num, Num) -> Num, ops: seq<Op>, t: int, left: Num, right: Num, line: seq<Num>) {
    NonDecreasing(perform, ops) && 0 <= t && left.Some? && left.value >= 0 && Positive([right] + line)
  }

  /** With growing operators, positive numbers and a non-negative test the
      pruning loses nothing: one operator's branch reports the test exactly
      when that operator leads to it. */
  lemma {:induction false} HandleExact(perform: (Op, Num, Num) -> Num, skipPruned: bool, ops: seq<Op>, k: nat,
                                       t: int, left: Num, right: Num, line: seq<Num>)
    requires k < |ops| && Ready(perform, ops, t, left, right, line)
    ensures Handle(perform, skipPruned, ops, ops[k], Some(t), left, right, line) == t <==> HitVia(perform, ops, k, t, left, right, line)
    decreases |line|, 0
  {
    var nums := [right] + line;
    assert right == nums[0] && line == nums[1..];
    PositiveTail(nums);
    var v := Step(perform, ops[k], left, right);
    StepAtLeast(perform, ops, k, left, right);
    if v.value > t {
      NoHitAbove(perform, ops, t, v, line);
    } else if v.value < t && |line| > 0 {
      assert [line[0]] + line[1..] == line;
      BranchesExact(perform, skipPruned, ops, t, v, line[0], line[1..]);
    }
  }

  /** One turn of the operator loop for a non-negative test. */
  lemma BranchesFromStep(perform: (Op, Num, Num) -> Num, skipPruned: bool, ops: seq<Op>, k: nat,
                         t: int, left: Num, right: Num, line: seq<Num>)
    requires k < |ops| && 0 <= t
    ensures var res := Handle(perform, skipPruned, ops, ops[k], Some(t), left, right, line);
      BranchesFrom(perform, skipPruned, ops, k, Some(t), left, right, line) ==
        if res == t then t else BranchesFrom(perform, skipPruned, ops, k + 1, Some(t), left, right, line)
  {
  }

  lemma {:induction false} BranchesFromExact(perform: (Op, Num, Num) -> Num, skipPruned: bool, ops: seq<Op>, k: nat,
                                             t: int, left: Num, right: Num, line: seq<Num>)
    requires k <= |ops| && Ready(perform, ops, t, left, right, line)
    ensures BranchesFrom(perform, skipPruned, ops, k, Some(t), left, right, line) ==
      if AnyHit(perform, ops, k, t, left, right, line) then t else 0
    decreases |line|, 1, |ops| - k
  {
    if k < |ops| {
      HandleExact(perform, skipPruned, ops, k, t, left, right, line);
      BranchesFromExact(perform, skipPruned, ops, k + 1, t, left, right, line);
      AnyHitStep(perform, ops, k, t, left, right, line);
      BranchesFromStep(perform, skipPruned, ops, k, t, left, right, line);
    }
  }

  /** The whole search reports the test exactly when the reference says
      some choice of operators reaches it; either way of treating a pruned
      branch gives the same answer here. */
  lemma {:induction false} BranchesExact(perform: (Op, Num, Num) -> Num, skipPruned: bool, ops: seq<Op>,
                                         t: int, left: Num, right: Num, line: seq<Num>)
    requires Ready(perform, ops, t, left, right, line)
    ensures Branches(perform, skipPruned, ops, Some(t), left, right, line) ==
      if Hits(perform, ops, t, left, [right] + line) then t else 0
    decreases |line|, 2
  {
    BranchesFromExact(perform, skipPruned, ops, 0, t, left, right, line);
    var nums := [right] + line;
    assert nums[0] == right && nums[1..] == line;
    if Hits(perform, ops, t, left, nums) {
      var j :| 0 <= j < |ops| &&
        (Step(perform, ops[j], left, nums[0]) == Some(t) || Hits(perform, ops, t, Step(perform, ops[j], left, nums[0]), nums[1..]));
      assert HitVia(perform, ops, j, t, left, right, line);
    }
    if AnyHit(perform, ops, 0, t, left, right, line) {
      var j :| 0 <= j < |ops| && HitVia(perform, ops, j, t, left, right, line);
      assert Step(perform, ops[j], left, nums[0]) == Step(perform, ops[j], left, right);
    }
  }

  /** The search's result for one equation: `eq[0]`, `eq[1][0]`, `eq[1][1]`
      and `eq[1].slice(2)`. */
  function Score(perform: (Op, Num, Num) -> Num, skipPruned: bool, ops: seq<Op>, e: Equation): (r: int)
    ensures r == 0 || (Some(r) == e.test && (skipPruned ==> r != -1))
  {
    Branches(perform, skipPruned, ops, e.test, Item(e.nums, 0), Item(e.nums, 1), Drop(e.nums, 2))
  }

  /** On an admissible equation with growing operators the score is the
      test when the reference reaches it and 0 otherwise; a line with no
      numbers scores 0. */
  lemma ScoreExact(perform: (Op, Num, Num) -> Num, skipPruned: bool, ops: seq<Op>, e: Equation)
    requires NonDecreasing(perform, ops) && Admissible(e)
    ensures Score(perform, skipPruned, ops, e) == if EqHits(perform, ops, e) then e.test.value else 0
  {
    if e.nums == [] {
      BlankFrom(perform, skipPruned, ops, 0, e.test);
    } else {
      var n := e.nums;
      assert [n[1]] + n[2..] == n[1..];
      PositiveTail(n);
      BranchesExact(perform, skipPruned, ops, e.test.value, n[0], n[1], n[2..]);
    }
  }

  /** With no numbers both operands are undefined, every operator gives
      NaN, and no branch succeeds. */
  lemma {:induction false} BlankFrom(perform: (Op, Num, Num) -> Num, skipPruned: bool, ops: seq<Op>, k: nat, test: Num)
    requires NonDecreasing(perform, ops) && k <= |ops|
    ensures BranchesFrom(perform, skipPruned, ops, k, test, None, None, []) == 0
    decreases |ops| - k
  {
    if k < |ops| {
      assert Grows(perform, ops[k], None, None);
      BlankFrom(perform, skipPruned, ops, k + 1, test);
    }
  }

  function Scores(perform: (Op, Num, Num) -> Num, skipPruned: bool, ops: seq<Op>, eqs: seq<Equation>): (r: seq<int>)
    ensures |r| == |eqs|
    ensures forall i :: 0 <= i < |eqs| ==> r[i] == Score(perform, skipPruned, ops, eqs[i])
  {
    seq(|eqs|, i requires 0 <= i < |eqs| => Score(perform, skipPruned, ops, eqs[i]))
  }

  /** For admissible equations and growing operators the scores are the
      reference's hit values. */
  lemma ScoresExact(perform: (Op, Num, Num) -> Num, skipPruned: bool, ops: seq<Op>, eqs: seq<Equation>)
    requires NonDecreasing(perform, ops) && forall i :: 0 <= i < |eqs| ==> Admissible(eqs[i])
    ensures Scores(perform, skipPruned, ops, eqs) == HitValues(perform, ops, eqs)
  {
    forall i | 0 <= i < |eqs|
      ensures Scores(perform, skipPruned, ops, eqs)[i] == HitValues(perform, ops, eqs)[i]
    {
      ScoreExact(perform, skipPruned, ops, eqs[i]);
    }
  }

  /** An equation is among the zero-scoring ones exactly when it occurs and
      scores 0. */
  lemma ZerosMember(perform: (Op, Num, Num) -> Num, skipPruned: bool, ops: seq<Op>, eqs: seq<Equation>, e: Equation)
    ensures e in Zeros(eqs, Scores(perform, skipPruned, ops, eqs)) <==> e in eqs && Score(perform, skipPruned, ops, e) == 0
  {
    var scores := Scores(perform, skipPruned, ops, eqs);
    ZerosPick(eqs, scores, e);
    if e in eqs && Score(perform, skipPruned, ops, e) == 0 {
      var i :| 0 <= i < |eqs| && eqs[i] == e;
      assert Picked(eqs, scores, e, i);
    }
  }

  predicate Picked(eqs: seq<Equation>, scores: seq<int>, e: Equation, i: int)
    requires |scores| == |eqs|
  {
    0 <= i < |eqs| && eqs[i] == e && scores[i] == 0
  }

  /** An equation is among the zeros exactly when some position holds it
      with score 0. */
  lemma {:induction false} ZerosPick(eqs: seq<Equation>, scores: seq<int>, e: Equation)
    requires |scores| == |eqs|
    ensures e in Zeros(eqs, scores) <==> exists i :: Picked(eqs, scores, e, i)
    decreases |eqs|
  {
    if |eqs| > 0 {
      var n := |eqs| - 1;
      ZerosPick(eqs[..n], scores[..n], e);
      if e in Zeros(eqs[..n], scores[..n]) {
        var i :| Picked(eqs[..n], scores[..n], e, i);
        assert Picked(eqs, scores, e, i);
      } else if scores[n] == 0 && eqs[n] == e {
        assert Picked(eqs, scores, e, n);
      }
      if i :| Picked(eqs, scores, e, i) {
        if i < n {
          assert Picked(eqs[..n], scores[..n], e, i);
        }
      }
    }
  }

  /** The sum of a list of scores (`answer += res`). */
  function Total(scores: seq<int>): int {
    if |scores| == 0 then 0 else Total(scores[..|scores| - 1]) + scores[|scores| - 1]
  }

  lemma {:induction false} TotalAppend(a: seq<int>, b: seq<int>)
    ensures Total(a + b) == Total(a) + Total(b)
    decreases |b|
  {
    if |b| > 0 {
      assert (a + b)[..|a + b| - 1] == a + b[..|b| - 1];
      TotalAppend(a, b[..|b| - 1]);
    } else {
      assert a + b == a;
    }
  }

  /** The equations whose score is 0, in input order (the rejects). */
  function Zeros<T>(eqs: seq<T>, scores: seq<int>): (r: seq<T>)
    requires |scores| == |eqs|
    ensures |r| <= |eqs|
    ensures forall e :: e in r ==> e in eqs
  {
    if |eqs| == 0 then []
    else
      var n := |eqs| - 1;
      Zeros(eqs[..n], scores[..n]) + (if scores[n] == 0 then [eqs[n]] else [])
  }

  lemma {:induction false} ZerosAppend<T>(a: seq<T>, sa: seq<int>, b: seq<T>, sb: seq<int>)
    requires |sa| == |a| && |sb| == |b|
    ensures Zeros(a + b, sa + sb) == Zeros(a, sa) + Zeros(b, sb)
    decreases |b|
  {
    if |b| > 0 {
      var n := |b| - 1;
      assert (a + b)[..|a + b| - 1] == a + b[..n];
      assert (sa + sb)[..|sa + sb| - 1] == sa + sb[..n];
      ZerosAppend(a, sa, b[..n], sb[..n]);
    } else {
      assert a + b == a && sa + sb == sa;
    }
  }

  /** `arr.flat()` for an array of arrays. */
  function Flatten<T>(parts: seq<seq<T>>): (r: seq<T>) {
    if |parts| == 0 then [] else parts[0] + Flatten(parts[1..])
  }

  /** What one pass over a list of equations produces (`solve` and
      `executeChunk`): the summed answer and the rejects. */
  datatype Outcome = Outcome(answer: int, rejects: seq<Equation>)

  /** The pass as a function: the sum of the scores and, in part 1, the
      equations scoring 0 in input order; other parts collect none. */
  function Run(perform: (Op, Num, Num) -> Num, skipPruned: bool, ops: seq<Op>, part: int, eqs: seq<Equation>): Outcome {
    var scores := Scores(perform, skipPruned, ops, eqs);
    Outcome(Total(scores), if part == 1 then Zeros(eqs, scores) else [])
  }

  /** A pass over a concatenation is the concatenation of the passes: the
      data may be cut into chunks anywhere. */
  lemma RunAppend(perform: (Op, Num, Num) -> Num, skipPruned: bool, ops: seq<Op>, part: int, a: seq<Equation>, b: seq<Equation>)
    ensures Run(perform, skipPruned, ops, part, a + b).answer ==
      Run(perform, skipPruned, ops, part, a).answer + Run(perform, skipPruned, ops, part, b).answer
    ensures Run(perform, skipPruned, ops, part, a + b).rejects ==
      Run(perform, skipPruned, ops, part, a).rejects + Run(perform, skipPruned, ops, part, b).rejects
  {
    var sa, sb := Scores(perform, skipPruned, ops, a), Scores(perform, skipPruned, ops, b);
    ScoresAppend(perform, skipPruned, ops, a, b);
    TotalAppend(sa, sb);
    ZerosAppend(a, sa, b, sb);
  }

  lemma ScoresAppend(perform: (Op, Num, Num) -> Num, skipPruned: bool, ops: seq<Op>, a: seq<Equation>, b: seq<Equation>)
    ensures Scores(perform, skipPruned, ops, a + b) == Scores(perform, skipPruned, ops, a) + Scores(perform, skipPruned, ops, b)
  {
    var sa, sb := Scores(perform, skipPruned, ops, a), Scores(perform, skipPruned, ops, b);
    var s := Scores(perform, skipPruned, ops, a + b);
    forall i | 0 <= i < |a| + |b|
      ensures s[i] == (sa + sb)[i]
    {
      if i < |a| {
        assert (a + b)[i] == a[i];
      } else {
        assert (a + b)[i] == b[i - |a|];
      }
    }
  }

  /** For admissible equations and growing operators the answer is the
      sum of the tests the reference reaches, and the part 1 rejects are
      exactly the equations it does not reach or whose test is 0, which
      includes every line with no numbers. */
  lemma RunExact(perform: (Op, Num, Num) -> Num, skipPruned: bool, ops: seq<Op>, eqs: seq<Equation>)
    requires NonDecreasing(perform, ops) && forall i :: 0 <= i < |eqs| ==> Admissible(eqs[i])
    ensures Run(perform, skipPruned, ops, 1, eqs).answer == Total(HitValues(perform, ops, eqs))
    ensures forall e :: e in Run(perform, skipPruned, ops, 1, eqs).rejects <==>
      e in eqs && (!EqHits(perform, ops, e) || e.test == Some(0))
  {
    ScoresExact(perform, skipPruned, ops, eqs);
    forall e | true
      ensures e in Run(perform, skipPruned, ops, 1, eqs).rejects <==>
        e in eqs && (!EqHits(perform, ops, e) || e.test == Some(0))
    {
      ZerosMember(perform, skipPruned, ops, eqs, e);
      if e in eqs {
        ScoreExact(perform, skipPruned, ops, e);
      }
    }
  }

  /** What one equation adds over both parts: its part 1 score and, only
      when that is 0, its part 2 score. With growing operators this is the
      part 2 reference value, because a success with `+` and `*` is also one
      with `||` added. */
  lemma TwoPassOne(perform: (Op, Num, Num) -> Num, skipPruned: bool, e: Equation)
    requires NonDecreasing(perform, Part1Ops) && NonDecreasing(perform, Part2Ops) && Admissible(e)
    ensures Score(perform, skipPruned, Part1Ops, e) +
      (if Score(perform, skipPruned, Part1Ops, e) == 0 then Score(perform, skipPruned, Part2Ops, e) else 0) ==
      (if EqHits(perform, Part2Ops, e) then e.test.value else 0)
  {
    ScoreExact(perform, skipPruned, Part1Ops, e);
    ScoreExact(perform, skipPruned, Part2Ops, e);
    if EqHits(perform, Part1Ops, e) {
      assert WellFormed(e);
      HitsMoreOps(perform, Part1Ops, Part2Ops, e.test.value, e.nums[0], e.nums[1..]);
    }
  }

  /** Part 1 over all equations, then part 2 over part 1's rejects: the two
      answers add up to the part 2 reference total. */
  lemma TwoPass(perform: (Op, Num, Num) -> Num, skipPruned: bool, eqs: seq<Equation>)
    requires NonDecreasing(perform, Part1Ops) && NonDecreasing(perform, Part2Ops)
    requires forall i :: 0 <= i < |eqs| ==> Admissible(eqs[i])
    ensures Run(perform, skipPruned, Part1Ops, 1, eqs).answer +
      Run(perform, skipPruned, Part2Ops, 2, Run(perform, skipPruned, Part1Ops, 1, eqs).rejects).answer ==
      Total(HitValues(perform, Part2Ops, eqs))
  {
    var a := Scores(perform, skipPruned, Part1Ops, eqs);
    var b := Scores(perform, skipPruned, Part2Ops, eqs);
    var h := HitValues(perform, Part2Ops, eqs);
    ScoresZeros(perform, skipPruned, Part2Ops, eqs, a);
    forall i | 0 <= i < |eqs|
      ensures a[i] + (if a[i] == 0 then b[i] else 0) == h[i]
    {
      TwoPassOne(perform, skipPruned, eqs[i]);
    }
    TotalTwoPass(a, b, h);
  }

  /** Scoring the zero-scoring equations is picking the zero positions of
      the scores. */
  lemma {:induction false} ScoresZeros(perform: (Op, Num, Num) -> Num, skipPruned: bool, ops: seq<Op>, eqs: seq<Equation>, a: seq<int>)
    requires |a| == |eqs|
    ensures Scores(perform, skipPruned, ops, Zeros(eqs, a)) == Zeros(Scores(perform, skipPruned, ops, eqs), a)
    decreases |eqs|
  {
    if |eqs| > 0 {
      var n := |eqs| - 1;
      var b := Scores(perform, skipPruned, ops, eqs);
      ScoresZeros(perform, skipPruned, ops, eqs[..n], a[..n]);
      assert b[..n] == Scores(perform, skipPruned, ops, eqs[..n]);
      var tail := if a[n] == 0 then [eqs[n]] else [];
      ScoresAppend(perform, skipPruned, ops, Zeros(eqs[..n], a[..n]), tail);
    }
  }

  /** The arithmetic of the two passes, position by position. */
  lemma {:induction false} TotalTwoPass(a: seq<int>, b: seq<int>, h: seq<int>)
    requires |a| == |b| == |h|
    requires forall i :: 0 <= i < |a| ==> a[i] + (if a[i] == 0 then b[i] else 0) == h[i]
    ensures Total(a) + Total(Zeros(b, a)) == Total(h)
    decreases |a|
  {
    if |a| > 0 {
      var n := |a| - 1;
      TotalTwoPass(a[..n], b[..n], h[..n]);
      var tail := if a[n] == 0 then [b[n]] else [];
      TotalAppend(Zeros(b[..n], a[..n]), tail);
    }
  }

  /** Where two operator dispatches agree: on a non-negative left side and
      a positive right side. */
  ghost predicate Agree(p: (Op, Num, Num) -> Num, q: (Op, Num, Num) -> Num, op: Op, l: Num, r: Num) {
    l.Some? && 0 <= l.value && r.Some? && 1 <= r.value ==> p(op, l, r) == q(op, l, r)
  }

  ghost predicate AgreeOn(p: (Op, Num, Num) -> Num, q: (Op, Num, Num) -> Num, ops: seq<Op>) {
    forall k, l: Num, r: Num :: 0 <= k < |ops| ==> Agree(p, q, ops[k], l, r)
  }

  /** Two dispatches that agree where the search uses them, one of them
      growing, report the same successes from a non-negative start on
      positive numbers. */
  lemma {:induction false} HitsAgree(p: (Op, Num, Num) -> Num, q: (Op, Num, Num) -> Num, ops: seq<Op>, t: int, acc: Num, nums: seq<Num>)
    requires AgreeOn(p, q, ops) && NonDecreasing(p, ops)
    requires acc.Some? && 0 <= acc.value && Positive(nums)
    ensures Hits(p, ops, t, acc, nums) <==> Hits(q, ops, t, acc, nums)
    decreases |nums|
  {
    if |nums| > 0 {
      PositiveTail(nums);
      forall k | 0 <= k < |ops|
        ensures Step(p, ops[k], acc, nums[0]) == Step(q, ops[k], acc, nums[0])
        ensures Hits(p, ops, t, Step(p, ops[k], acc, nums[0]), nums[1..]) <==>
          Hits(q, ops, t, Step(q, ops[k], acc, nums[0]), nums[1..])
      {
        assert Agree(p, q, ops[k], acc, nums[0]);
        StepAtLeast(p, ops, k, acc, nums[0]);
        HitsAgree(p, q, ops, t, Step(p, ops[k], acc, nums[0]), nums[1..]);
      }
    }
  }

  /** Hence the same reference values for any equations: the ones that
      are not well-formed count 0 under both. */
  lemma HitValuesAgree(p: (Op, Num, Num) -> Num, q: (Op, Num, Num) -> Num, ops: seq<Op>, eqs: seq<Equation>)
    requires AgreeOn(p, q, ops) && NonDecreasing(p, ops)
    ensures HitValues(p, ops, eqs) == HitValues(q, ops, eqs)
  {
    forall i | 0 <= i < |eqs|
      ensures HitValues(p, ops, eqs)[i] == HitValues(q, ops, eqs)[i]
    {
      if WellFormed(eqs[i]) {
        var n := eqs[i].nums;
        PositiveTail(n);
        HitsAgree(p, q, ops, eqs[i].test.value, n[0], n[1..]);
      }
    }
  }
}
