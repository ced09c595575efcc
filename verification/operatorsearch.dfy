/** The main program of day 7 (day_7/solution.js): parsing the equations,
    its own `performOperation` with the numeric `concatNums`, the
    sequential `solve`, and the two parts as they run with workers: the
    data cut into `_THREAD_COUNT` slices, each searched by the worker of
    day_7/solve_chunk.js, part 2 re-checking only part 1's rejects. */
module OperatorSearch {
  import opened Wrappers
  import opened Decimal
  import opened Text
  import opened Equations
  import OperatorChunk

  // ---------------------------------------------------------------------
  // Parsing

  /** One line `"T: a b c"`: split on spaces, the test is what precedes the
      colon of the first word, every further word is a number. */
  function ParseLine(line: string): (e: Equation)
    ensures |e.nums| == |Split(line, ' ')| - 1
  {
    var words := Split(line, ' ');
    Equation(Number(Split(words[0], ':')[0]), seq(|words| - 1, i requires 0 <= i < |words| - 1 => Number(words[i + 1])))
  }

  /** `parseInput`: one equation per line of the input. */
  function ParseInput(input: string): (eqs: seq<Equation>)
    ensures |eqs| == |Split(input, '\n')|
    ensures forall i :: 0 <= i < |eqs| ==> eqs[i] == ParseLine(Split(input, '\n')[i])
  {
    var lines := Split(input, '\n');
    seq(|lines|, i requires 0 <= i < |lines| => ParseLine(lines[i]))
  }

  /** The text of an equation as the puzzle writes it. */
  function LineText(test: nat, nums: seq<nat>): string {
    Join([DecimalString(test) + ":"] + NumTexts(nums), ' ')
  }

  function NumTexts(nums: seq<nat>): (r: seq<string>)
    ensures |r| == |nums|
    ensures forall i :: 0 <= i < |nums| ==> r[i] == DecimalString(nums[i])
  {
    seq(|nums|, i requires 0 <= i < |nums| => DecimalString(nums[i]))
  }

  function Defined(nums: seq<nat>): (r: seq<Num>)
    ensures |r| == |nums|
    ensures forall i :: 0 <= i < |nums| ==> r[i] == Some(nums[i] as int)
  {
    seq(|nums|, i requires 0 <= i < |nums| => Some(nums[i] as int))
  }

  lemma DigitsNoSpace(s: string)
    requires AllDigits(s)
    ensures ' ' !in s && ':' !in s && '\n' !in s
  {
    DigitsFree(s, ' ');
    DigitsFree(s, ':');
    DigitsFree(s, '\n');
  }

  /** A line written as the puzzle writes it parses back to its test and
      numbers. */
  lemma ParseLineOfText(test: nat, nums: seq<nat>)
    ensures ParseLine(LineText(test, nums)) == Equation(Some(test), Defined(nums))
  {
    var head := DecimalString(test) + ":";
    var pieces := [head] + NumTexts(nums);
    DigitsNoSpace(DecimalString(test));
    assert ' ' !in head;
    forall i | 0 <= i < |pieces|
      ensures ' ' !in pieces[i]
    {
      if i > 0 {
        DigitsNoSpace(DecimalString(nums[i - 1]));
      }
    }
    SplitJoin(pieces, ' ');
    var words := Split(LineText(test, nums), ' ');
    assert words == pieces;
    HeadBeforeColon(DecimalString(test));
    NumberOfDecimal(test);
    forall i | 0 <= i < |nums|
      ensures Number(words[i + 1]) == Some(nums[i] as int)
    {
      NumberOfDecimal(nums[i]);
    }
  }

  /** `"T:".split(':')[0]` is T. */
  lemma HeadBeforeColon(s: string)
    requires ':' !in s
    ensures Split(s + ":", ':')[0] == s
  {
    var t := s + ":";
    assert t[|s|] == ':' && t[..|s|] == s;
    IndexOfIs(t, ':', |s|);
  }

  /** Lines without line breaks joined by line breaks parse line by line. */
  lemma ParseInputOfLines(lines: seq<string>)
    requires |lines| >= 1
    requires forall i :: 0 <= i < |lines| ==> '\n' !in lines[i]
    ensures ParseInput(Join(lines, '\n')) == seq(|lines|, i requires 0 <= i < |lines| => ParseLine(lines[i]))
  {
    SplitJoin(lines, '\n');
  }

  /** `readInputFile` keeps a final line break, and the empty line after it
      becomes one more equation with test `Number("")`, which is 0, and no
      numbers. */
  lemma TrailingNewline(text: string)
    ensures ParseInput(text + "\n") == ParseInput(text) + [Equation(Some(0), [])]
  {
    SplitTrailing(text, '\n');
    BlankLine();
    ParseOneMoreLine(text + "\n", text);
  }

  /** An input with one more, empty, line parses to one more equation:
      the empty line's. */
  lemma ParseOneMoreLine(longer: string, text: string)
    requires Split(longer, '\n') == Split(text, '\n') + [""]
    ensures ParseInput(longer) == ParseInput(text) + [ParseLine("")]
  {
    var a, b := ParseInput(longer), ParseInput(text) + [ParseLine("")];
    assert |a| == |b|;
    forall i | 0 <= i < |a|
      ensures a[i] == b[i]
    {
      ParseLineAt(longer, text, i);
    }
  }

  /** Line i of the longer input is line i of the shorter one, or the empty
      line after it. */
  lemma ParseLineAt(longer: string, text: string, i: nat)
    requires Split(longer, '\n') == Split(text, '\n') + [""]
    requires i < |Split(longer, '\n')|
    ensures ParseInput(longer)[i] == (ParseInput(text) + [ParseLine("")])[i]
  {
    var lines, more := Split(text, '\n'), Split(longer, '\n');
    if i < |lines| {
      assert more[i] == lines[i];
    } else {
      assert more[i] == "";
    }
  }

  /** The empty line: test 0, no numbers. */
  lemma BlankLine()
    ensures ParseLine("") == Equation(Some(0), [])
  {
    assert Split("", ' ') == [""];
    assert Split("", ':') == [""];
    assert Trim("") == "";
  }

  /** The lines of a puzzle input, with or without its final line break,
      parse to admissible equations only. */
  lemma PuzzleInputAdmissible(tests: seq<nat>, nums: seq<seq<nat>>, newline: bool)
    requires |tests| == |nums| >= 1
    requires forall i :: 0 <= i < |nums| ==> |nums[i]| >= 2 && forall j :: 0 <= j < |nums[i]| ==> nums[i][j] >= 1
    ensures var text := Join(seq(|tests|, i requires 0 <= i < |tests| => LineText(tests[i], nums[i])), '\n');
      forall e :: e in ParseInput(if newline then text + "\n" else text) ==> Admissible(e)
  {
    var text := Join(seq(|tests|, i requires 0 <= i < |tests| => LineText(tests[i], nums[i])), '\n');
    LinesAdmissible(tests, nums);
    if newline {
      TrailingNewline(text);
      BlankAdmissible(ParseInput(text));
    }
  }

  /** The lines of a puzzle input, without a final line break, parse to
      well-formed equations. */
  lemma LinesAdmissible(tests: seq<nat>, nums: seq<seq<nat>>)
    requires |tests| == |nums| >= 1
    requires forall i :: 0 <= i < |nums| ==> |nums[i]| >= 2 && forall j :: 0 <= j < |nums[i]| ==> nums[i][j] >= 1
    ensures var text := Join(seq(|tests|, i requires 0 <= i < |tests| => LineText(tests[i], nums[i])), '\n');
      forall e :: e in ParseInput(text) ==> Admissible(e)
  {
    var text := Join(seq(|tests|, i requires 0 <= i < |tests| => LineText(tests[i], nums[i])), '\n');
    var p := ParseInput(text);
    PuzzleLines(tests, nums);
    forall i | 0 <= i < |p|
      ensures WellFormed(p[i])
    {
      var d := Defined(nums[i]);
      assert p[i] == Equation(Some(tests[i]), d);
      assert forall j :: 0 <= j < |d| ==> d[j] == Some(nums[i][j] as int);
    }
  }

  /** Admissible equations stay so with the empty line's equation after
      them. */
  lemma BlankAdmissible(p: seq<Equation>)
    requires forall e :: e in p ==> Admissible(e)
    ensures forall e :: e in p + [Equation(Some(0), [])] ==> Admissible(e)
  {
  }

  /** Each line of a puzzle input parses to its test and numbers. */
  lemma PuzzleLines(tests: seq<nat>, nums: seq<seq<nat>>)
    requires |tests| == |nums| >= 1
    ensures var text := Join(seq(|tests|, i requires 0 <= i < |tests| => LineText(tests[i], nums[i])), '\n');
      && |ParseInput(text)| == |tests|
      && forall i :: 0 <= i < |tests| ==> ParseInput(text)[i] == Equation(Some(tests[i]), Defined(nums[i]))
  {
    var lines := seq(|tests|, i requires 0 <= i < |tests| => LineText(tests[i], nums[i]));
    forall i | 0 <= i < |lines|
      ensures '\n' !in lines[i]
      ensures ParseLine(lines[i]) == Equation(Some(tests[i]), Defined(nums[i]))
    {
      LineNoBreak(tests[i], nums[i]);
      ParseLineOfText(tests[i], nums[i]);
    }
    ParseInputOfLines(lines);
  }

  /** A line written as the puzzle writes it holds no line break. */
  lemma LineNoBreak(test: nat, nums: seq<nat>)
    ensures '\n' !in LineText(test, nums)
  {
    var pieces := [DecimalString(test) + ":"] + NumTexts(nums);
    forall i | 0 <= i < |pieces|
      ensures '\n' !in pieces[i]
    {
      if i == 0 {
        DigitsNoSpace(DecimalString(test));
      } else {
        DigitsNoSpace(DecimalString(nums[i - 1]));
      }
    }
    JoinFree(pieces, ' ', '\n');
  }

  // ---------------------------------------------------------------------
  // Operators

  /** How often `concatNums` multiplies the left side by 10: `temp` starts
      at the right side and is divided by 10 while it is at least 1, so
      this is the number of decimal digits of a positive right side, and
      none otherwise. */
  function Shifts(right: int): (n: nat)
    ensures right >= 1 ==> n >= 1 && Pow10(n - 1) <= right < Pow10(n)
    ensures right < 1 ==> n == 0
  {
    if right >= 1 then Digits(right) else 0
  }

  /** `concatNums(left, right)`. */
  function ConcatNums(left: int, right: int): int {
    left * Pow10(Shifts(right)) + right
  }

  /** `x / p >= 1` on exact rationals is `x >= p`. */
  lemma RatioAtLeastOne(x: int, p: int)
    requires p >= 1
    ensures (x as real / p as real >= 1.0) <==> x >= p
  {
    var q := x as real / p as real;
    assert q * p as real == x as real;
    if q >= 1.0 {
      assert q * p as real >= 1.0 * p as real;
    } else {
      assert q * p as real < 1.0 * p as real;
    }
  }

  lemma DivideAgain(x: int, p: int)
    requires p >= 1
    ensures (x as real / p as real) / 10.0 == x as real / (10 * p) as real
  {
  }

  /** After k divisions, `temp` is still at least 1 exactly while k is
      below the number of shifts. */
  lemma StillLarge(right: int, k: nat)
    ensures (right as real / Pow10(k) as real >= 1.0) <==> k < Shifts(right)
  {
    RatioAtLeastOne(right, Pow10(k));
    if right >= 1 {
      if k < Shifts(right) {
        Pow10Monotone(k, Shifts(right) - 1);
      } else {
        Pow10Monotone(Shifts(right), k);
      }
    }
  }

  /** The loop of `concatNums`, `temp` an exact rational: it ends with the
      left side shifted once per decimal digit of the right side. */
  method ConcatLoop(left: int, right: int) returns (out: int)
    ensures out == left * Pow10(Shifts(right)) + right
    ensures right >= 1 ==> out == left * Pow10(Digits(right)) + right
    ensures right < 1 ==> out == left + right
  {
    var l := left;
    var temp: real := right as real;
    ghost var k: nat := 0;
    StillLarge(right, 0);
    while temp >= 1.0
      invariant k <= Shifts(right)
      invariant temp == right as real / Pow10(k) as real
      invariant l == left * Pow10(k)
      invariant temp >= 1.0 <==> k < Shifts(right)
      decreases Shifts(right) - k
    {
      l := l * 10;
      DivideAgain(right, Pow10(k));
      temp := temp / 10.0;
      k := k + 1;
      StillLarge(right, k);
    }
    out := l + right;
  }

  /** This file's `performOperation`: `+`, `*` and `concatNums`, NaN in
      and NaN out, and 0 for an operator it does not know. */
  function Perform(op: Op, left: Num, right: Num): Num {
    match op
    case Add => if left.Some? && right.Some? then Some(left.value + right.value) else None
    case Mul => if left.Some? && right.Some? then Some(left.value * right.value) else None
    case Cat => if left.Some? && right.Some? then Some(ConcatNums(left.value, right.value)) else None
    case Other => Some(0)
  }

  /** What the dispatch computes for each operator, against the loop. */
  method PerformOperation(op: Op, left: Num, right: Num) returns (outcome: Num)
    ensures op == Add ==> outcome == (if left.Some? && right.Some? then Some(left.value + right.value) else None)
    ensures op == Mul ==> outcome == (if left.Some? && right.Some? then Some(left.value * right.value) else None)
    ensures op == Cat && left.Some? && right.Some? && right.value >= 1 ==>
      outcome == Some(left.value * Pow10(Digits(right.value)) + right.value)
    ensures op == Cat && left.Some? && right.Some? && right.value < 1 ==> outcome == Some(left.value + right.value)
    ensures op == Other ==> outcome == Some(0)
    ensures outcome == Perform(op, left, right)
  {
    outcome := Some(0);
    if op == Add {
      outcome := if left.Some? && right.Some? then Some(left.value + right.value) else None;
    } else if op == Mul {
      outcome := if left.Some? && right.Some? then Some(left.value * right.value) else None;
    } else if op == Cat {
      if left.Some? && right.Some? {
        var c := ConcatLoop(left.value, right.value);
        outcome := Some(c);
      } else {
        outcome := None;
      }
    }
  }

  /** `+`, `*` and `concatNums` never fall below their left side on a
      positive right side. */
  lemma PerformGrows(ops: seq<Op>)
    requires forall k :: 0 <= k < |ops| ==> ops[k] != Other
    ensures NonDecreasing(Perform, ops)
  {
    forall k, l: Num, r: Num | 0 <= k < |ops|
      ensures Grows(Perform, ops[k], l, r)
    {
      if l.Some? && 0 <= l.value && r.Some? && 1 <= r.value {
        var a: nat, b: nat := l.value, r.value;
        match ops[k]
        case Add =>
        case Mul =>
          OperatorChunk.AtLeastLeft(a, b);
        case Cat =>
          OperatorChunk.AtLeastLeft(a, Pow10(Shifts(b)));
      }
    }
  }

  /** The two `||`: on a positive right side both write the digits side by
      side; on a right side of 0 `concatNums` leaves the left side alone
      while the text version appends a 0. */
  lemma ConcatVariants(l: nat, r: nat)
    ensures r >= 1 ==> Perform(Cat, Some(l), Some(r)) == OperatorChunk.Perform(Cat, Some(l), Some(r))
    ensures r == 0 ==> Perform(Cat, Some(l), Some(r)) == Some(l)
    ensures r == 0 ==> OperatorChunk.Perform(Cat, Some(l), Some(r)) == Some(l * 10)
  {
    OperatorChunk.CatValue(l, r);
    CatShifts(l, r);
    if r == 0 {
      assert Digits(0) == 1 && Pow10(1) == 10;
      assert l * Pow10(Digits(r)) + r == l * 10;
    }
  }

  lemma CatShifts(l: nat, r: nat)
    ensures Perform(Cat, Some(l), Some(r)) == Some(if r >= 1 then l * Pow10(Digits(r)) + r else l)
  {
    assert Perform(Cat, Some(l), Some(r)) == Some(ConcatNums(l, r));
    if r == 0 {
      assert Shifts(r) == 0;
    }
  }

  /** On puzzle input the two dispatches agree. */
  lemma DispatchesAgree(ops: seq<Op>)
    ensures AgreeOn(Perform, OperatorChunk.Perform, ops)
  {
    forall k, l: Num, r: Num | 0 <= k < |ops|
      ensures Agree(Perform, OperatorChunk.Perform, ops[k], l, r)
    {
      if l.Some? && 0 <= l.value && r.Some? && 1 <= r.value {
        ConcatVariants(l.value, r.value);
      }
    }
  }

  // ---------------------------------------------------------------------
  // The sequential solver

  /** `solve(data, part)`: the answer it returns and the equations it
      pushes onto `_REJECTS`, searched with `startNewRecursionBranches`,
      which does not skip a pruned branch specially. */
  method Solve(ops: seq<Op>, part: int, data: seq<Equation>) returns (answer: int, rejects: seq<Equation>)
    ensures Outcome(answer, rejects) == Run(Perform, false, ops, part, data)
  {
    answer := 0;
    rejects := [];
    for i := 0 to |data|
      invariant answer == Total(Scores(Perform, false, ops, data[..i]))
      invariant rejects == if part == 1 then Zeros(data[..i], Scores(Perform, false, ops, data[..i])) else []
    {
      var eq := data[i];
      var res := Branches(Perform, false, ops, eq.test, Item(eq.nums, 0), Item(eq.nums, 1), Drop(eq.nums, 2));
      assert data[..i + 1][..i] == data[..i];
      assert Scores(Perform, false, ops, data[..i + 1])[..i] == Scores(Perform, false, ops, data[..i]);
      answer := answer + res;
      if part == 1 && res == 0 {
        rejects := rejects + [eq];
      }
    }
    assert data[..|data|] == data;
  }

  /** Both parts without workers: part 1 with `+ *`, part 2 with `+ * ||`
      over part 1's rejects, the printed part 2 answer being the sum. */
  lemma SequentialParts(data: seq<Equation>)
    requires forall i :: 0 <= i < |data| ==> Admissible(data[i])
    ensures Run(Perform, false, Part1Ops, 1, data).answer == Total(HitValues(Perform, Part1Ops, data))
    ensures Run(Perform, false, Part1Ops, 1, data).answer +
      Run(Perform, false, Part2Ops, 2, Run(Perform, false, Part1Ops, 1, data).rejects).answer ==
      Total(HitValues(Perform, Part2Ops, data))
  {
    PerformGrows(Part1Ops);
    PerformGrows(Part2Ops);
    RunExact(Perform, false, Part1Ops, data);
    TwoPass(Perform, false, data);
  }

  // ---------------------------------------------------------------------
  // Slicing the data for the workers

  /** `_THREAD_COUNT`. */
  const ThreadCount := 5

  /** `Math.ceil(n / 5)`. */
  function ChunkSize(n: nat): (c: nat)
    ensures ThreadCount * c >= n
    ensures ThreadCount * c < n + ThreadCount
  {
    (n + ThreadCount - 1) / ThreadCount
  }

  /** `data.slice(a, b)` for 0 <= a <= b: both ends clamped to the length. */
  function Slice<T>(data: seq<T>, a: nat, b: nat): (r: seq<T>)
    requires a <= b
    ensures |r| <= b - a
  {
    var lo := if a < |data| then a else |data|;
    var hi := if b < |data| then b else |data|;
    data[lo..hi]
  }

  /** The slices taken from index i on, for `i < end; i += size`. */
  function ChunksFrom<T>(data: seq<T>, size: nat, i: nat, end: nat): (r: seq<seq<T>>)
    requires size >= 1
    decreases end - i
  {
    if i >= end then [] else [Slice(data, i, i + size)] + ChunksFrom(data, size, i + size, end)
  }

  /** The slices `launchWorkers` hands out: with a chunk size of 0 (no
      data) the loop does not run. */
  function Chunks<T>(data: seq<T>): seq<seq<T>> {
    var size := ChunkSize(|data|);
    if size == 0 then [] else ChunksFrom(data, size, 0, ThreadCount * size)
  }

  lemma {:induction false} ChunksFromCover<T>(data: seq<T>, size: nat, i: nat, end: nat)
    requires size >= 1 && end >= |data|
    ensures Flatten(ChunksFrom(data, size, i, end)) == (if i < |data| then data[i..] else [])
    ensures forall k :: 0 <= k < |ChunksFrom(data, size, i, end)| ==> |ChunksFrom(data, size, i, end)[k]| <= size
    decreases end - i
  {
    if i < end {
      ChunksFromCover(data, size, i + size, end);
      var rest := ChunksFrom(data, size, i + size, end);
      var first := Slice(data, i, i + size);
      assert ChunksFrom(data, size, i, end) == [first] + rest;
      assert Flatten([first] + rest) == first + Flatten(rest);
      if i + size < |data| {
        assert data[i..] == data[i..i + size] + data[i + size..];
      }
    }
  }

  /** From i up to i + m * size there are m slices. */
  lemma {:induction false} ChunksFromCount<T>(data: seq<T>, size: nat, i: nat, m: nat)
    requires size >= 1
    ensures |ChunksFrom(data, size, i, i + m * size)| == m
    decreases m
  {
    if m > 0 {
      assert i + m * size == (i + size) + (m - 1) * size;
      ChunksFromCount(data, size, i + size, m - 1);
    }
  }

  /** The slices are consecutive, so disjoint, and together are the data;
      there are `_THREAD_COUNT` of them when there is any data, each of at
      most the chunk size. */
  lemma ChunksCover<T>(data: seq<T>)
    ensures Flatten(Chunks(data)) == data
    ensures |Chunks(data)| == if |data| == 0 then 0 else ThreadCount
    ensures forall k :: 0 <= k < |Chunks(data)| ==> |Chunks(data)[k]| <= ChunkSize(|data|)
  {
    var size := ChunkSize(|data|);
    if size > 0 {
      ChunksFromCover(data, size, 0, ThreadCount * size);
      ChunksFromCount(data, size, 0, ThreadCount);
    }
  }

  // ---------------------------------------------------------------------
  // The two parts with workers

  /** Every slice searched by a worker (`executeChunk`); the answers are
      added up and the part 1 rejects gathered slice by slice, which is
      `_REJECTS.flat()` when the workers report in slice order. */
  function Workers(ops: seq<Op>, part: int, chunks: seq<seq<Equation>>): Outcome {
    if |chunks| == 0 then Outcome(0, [])
    else
      var first := Run(OperatorChunk.Perform, true, ops, part, chunks[0]);
      var rest := Workers(ops, part, chunks[1..]);
      Outcome(first.answer + rest.answer, first.rejects + rest.rejects)
  }

  /** Searching slice by slice is searching the whole. */
  lemma {:induction false} WorkersFlatten(ops: seq<Op>, part: int, chunks: seq<seq<Equation>>)
    ensures Workers(ops, part, chunks) == Run(OperatorChunk.Perform, true, ops, part, Flatten(chunks))
  {
    if |chunks| > 0 {
      WorkersFlatten(ops, part, chunks[1..]);
      RunAppend(OperatorChunk.Perform, true, ops, part, chunks[0], Flatten(chunks[1..]));
    }
  }

  /** `solvePart1`: the workers over the data with `+ *`. */
  function Part1(data: seq<Equation>): Outcome {
    Workers(Part1Ops, 1, Chunks(data))
  }

  /** `solvePart2`: the workers over part 1's rejects with `+ * ||`; the
      answer printed adds part 1's. */
  function Part2(data: seq<Equation>): int {
    var first := Part1(data);
    Workers(Part2Ops, 2, Chunks(first.rejects)).answer + first.answer
  }

  lemma ChunkedRun(ops: seq<Op>, part: int, data: seq<Equation>)
    ensures Workers(ops, part, Chunks(data)) == Run(OperatorChunk.Perform, true, ops, part, data)
  {
    ChunksCover(data);
    WorkersFlatten(ops, part, Chunks(data));
  }

  /** For admissible input, part 1 is the sum of the tests reachable with
      `+ *`, and part 2 the sum of those reachable with `+ * ||`, whichever
      concatenation is used. */
  lemma PartsTotal(data: seq<Equation>)
    requires forall i :: 0 <= i < |data| ==> Admissible(data[i])
    ensures Part1(data).answer == Total(HitValues(OperatorChunk.Perform, Part1Ops, data))
    ensures Part2(data) == Total(HitValues(OperatorChunk.Perform, Part2Ops, data))
    ensures Part2(data) == Total(HitValues(Perform, Part2Ops, data))
  {
    OperatorChunk.PerformGrows(Part1Ops);
    OperatorChunk.PerformGrows(Part2Ops);
    ChunkedRun(Part1Ops, 1, data);
    var first := Run(OperatorChunk.Perform, true, Part1Ops, 1, data);
    ChunkedRun(Part2Ops, 2, first.rejects);
    RunExact(OperatorChunk.Perform, true, Part1Ops, data);
    TwoPass(OperatorChunk.Perform, true, data);
    PerformGrows(Part2Ops);
    DispatchesAgree(Part2Ops);
    HitValuesAgree(Perform, OperatorChunk.Perform, Part2Ops, data);
  }
}
