/** The worker's search (day_7/solve_chunk.js): for each equation of its
    chunk, try the operators left to right with pruning, add up the tests
    that can be met and, in part 1, collect the equations that cannot. */
module OperatorChunk {
  import opened Wrappers
  import opened Decimal
  import opened Text
  import opened Equations

  /** `performOperation`: `||` writes both operands side by side and reads
      the text back with `Number`; NaN on either side gives NaN. */
  function Perform(op: Op, left: Num, right: Num): Num {
    match op
    case Add => if left.Some? && right.Some? then Some(left.value + right.value) else None
    case Mul => if left.Some? && right.Some? then Some(left.value * right.value) else None
    case Cat => if left.Some? && right.Some? then Number(IntText(left.value) + IntText(right.value)) else None
    case Other => Some(0)
  }

  /** On non-negative operands `||` shifts the left one by the number of
      digits of the right one, so `l || 0` is `l * 10`. */
  lemma CatValue(l: nat, r: nat)
    ensures Perform(Cat, Some(l), Some(r)) == Some(l * Pow10(Digits(r)) + r)
  {
    CatIsText(l, r);
    NumberOfConcat(l, r);
  }

  lemma CatIsText(l: nat, r: nat)
    ensures Perform(Cat, Some(l), Some(r)) == Number(DecimalString(l) + DecimalString(r))
  {
    assert IntText(l) == DecimalString(l) && IntText(r) == DecimalString(r);
  }

  lemma NumberOfConcat(l: nat, r: nat)
    ensures Number(DecimalString(l) + DecimalString(r)) == Some(l * Pow10(Digits(r)) + r)
  {
    ConcatDecimal(l, r);
    ReadDigits(DecimalString(l) + DecimalString(r), l * Pow10(Digits(r)) + r);
  }

  lemma ReadDigits(s: string, v: int)
    requires |s| > 0 && AllDigits(s) && DigitValue(s) == v
    ensures Number(s) == Some(v)
  {
    NumberOfDigits(s);
  }

  lemma AtLeastLeft(l: nat, p: nat)
    requires p >= 1
    ensures l * p >= l
  {
    assert l * p == l * (p - 1) + l;
  }

  /** `+`, `*` and `||` never fall below their left side on a positive
      right side, which is what the pruning relies on. */
  lemma PerformGrows(ops: seq<Op>)
    requires forall k :: 0 <= k < |ops| ==> ops[k] != Other
    ensures NonDecreasing(Perform, ops)
  {
    forall k, l: Num, r: Num | 0 <= k < |ops|
      ensures Grows(Perform, ops[k], l, r)
    {
      if l.Some? && 0 <= l.value && r.Some? && 1 <= r.value {
        var a: nat, b: nat := l.value, r.value;
        match ops[k]
        case Add =>
        case Mul =>
          AtLeastLeft(a, b);
        case Cat =>
          CatValue(a, b);
          AtLeastLeft(a, Pow10(Digits(b)));
      }
    }
  }

  /** `executeChunk`: one pass over the chunk with this file's
      `performOperation` and its skipping of pruned branches. */
  method ExecuteChunk(ops: seq<Op>, part: int, data: seq<Equation>) returns (out: Outcome)
    ensures out == Run(Perform, true, ops, part, data)
  {
    var answer := 0;
    var rejects: seq<Equation> := [];
    for i := 0 to |data|
      invariant answer == Total(Scores(Perform, true, ops, data[..i]))
      invariant rejects == if part == 1 then Zeros(data[..i], Scores(Perform, true, ops, data[..i])) else []
    {
      var res := Branches(Perform, true, ops, data[i].test, Item(data[i].nums, 0), Item(data[i].nums, 1), Drop(data[i].nums, 2));
      assert data[..i + 1][..i] == data[..i];
      assert Scores(Perform, true, ops, data[..i + 1])[..i] == Scores(Perform, true, ops, data[..i]);
      answer := answer + res;
      if part == 1 && res == 0 {
        rejects := rejects + [data[i]];
      }
    }
    assert data[..|data|] == data;
    out := Outcome(answer, rejects);
  }

  /** The success test fires on any prefix: with test 3 and numbers
      1 2 5 the search reports success after 1 + 2, although no choice of
      operators over all three numbers gives 3. */
  lemma PrefixSuccess()
    ensures Branches(Perform, true, Part1Ops, Some(3), Some(1), Some(2), [Some(5)]) == 3
    ensures !Solvable(Perform, Part1Ops, 3, Some(1), [Some(2), Some(5)])
  {
    PrefixHit();
    PrefixUnsolvable();
  }

  lemma PrefixHit()
    ensures Branches(Perform, true, Part1Ops, Some(3), Some(1), Some(2), [Some(5)]) == 3
  {
    Part1Steps(1, 2);
    var h := Handle(Perform, true, Part1Ops, Part1Ops[0], Some(3), Some(1), Some(2), [Some(5)]);
    assert h == 3;
    assert BranchesFrom(Perform, true, Part1Ops, 0, Some(3), Some(1), Some(2), [Some(5)]) == 3;
  }

  lemma PrefixUnsolvable()
    ensures !Solvable(Perform, Part1Ops, 3, Some(1), [Some(2), Some(5)])
  {
    Part1Steps(1, 2);
    LastStepMisses(3);
    LastStepMisses(2);
    var nums := [Some(2), Some(5)];
    forall k | 0 <= k < |Part1Ops|
      ensures !Solvable(Perform, Part1Ops, 3, Step(Perform, Part1Ops[k], Some(1), nums[0]), nums[1..])
    {
      assert nums[1..] == [Some(5)];
    }
  }

  /** Neither `+ 5` nor `* 5` turns 3 or 2 into 3. */
  lemma LastStepMisses(acc: int)
    requires acc == 3 || acc == 2
    ensures !Solvable(Perform, Part1Ops, 3, Some(acc), [Some(5)])
  {
    Part1Steps(acc, 5);
    var nums := [Some(5)];
    forall j | 0 <= j < |Part1Ops|
      ensures !Solvable(Perform, Part1Ops, 3, Step(Perform, Part1Ops[j], Some(acc), nums[0]), nums[1..])
    {
      assert nums[1..] == [];
    }
  }

  lemma Part1Steps(a: int, b: int)
    ensures Step(Perform, Part1Ops[0], Some(a), Some(b)) == Some(a + b)
    ensures Step(Perform, Part1Ops[1], Some(a), Some(b)) == Some(a * b)
  {
  }
}
