/** Reactor reports (day_2/solution.js): a report is safe when its levels
    move in one direction by 1 to 3 at every step; part 2 also accepts a
    report that becomes safe once one level is removed. */
module ReportSafety {
  import opened Wrappers
  import opened Decimal
  import opened Text

  /** A level as `Number` reads it: None is NaN, and every comparison with
      NaN is false. */
  type Level = Option<int>

  const Low := 1
  const High := 3

  /** `input.split('\n').map(x => x.split(' ').map(Number))`. */
  function ParseInput(input: string): (r: seq<seq<Level>>)
    ensures |r| == |Split(input, '\n')|
    ensures forall i :: 0 <= i < |r| ==> |r[i]| == |Split(Split(input, '\n')[i], ' ')|
  {
    var lines := Split(input, '\n');
    seq(|lines|, i requires 0 <= i < |lines| => Levels(Split(lines[i], ' ')))
  }

  function Levels(words: seq<string>): (r: seq<Level>)
    ensures |r| == |words| && forall i :: 0 <= i < |words| ==> r[i] == Number(words[i])
  {
    seq(|words|, i requires 0 <= i < |words| => Number(words[i]))
  }

  /** A report as the puzzle writes it, levels separated by spaces. */
  function ReportLine(report: seq<nat>): string {
    Join(seq(|report|, i requires 0 <= i < |report| => DecimalString(report[i])), ' ')
  }

  function ReportsText(reports: seq<seq<nat>>): string {
    Join(seq(|reports|, i requires 0 <= i < |reports| => ReportLine(reports[i])), '\n')
  }

  function AsLevels(report: seq<nat>): (r: seq<Level>)
    ensures |r| == |report| && forall i :: 0 <= i < |report| ==> r[i] == Some(report[i] as int)
  {
    seq(|report|, i requires 0 <= i < |report| => Some(report[i] as int))
  }

  /** The puzzle text parses back to its reports. */
  lemma ParseInputOfReports(reports: seq<seq<nat>>)
    requires |reports| >= 1 && forall i :: 0 <= i < |reports| ==> |reports[i]| >= 1
    ensures ParseInput(ReportsText(reports)) == seq(|reports|, i requires 0 <= i < |reports| => AsLevels(reports[i]))
  {
    var lines := seq(|reports|, i requires 0 <= i < |reports| => ReportLine(reports[i]));
    forall i | 0 <= i < |lines|
      ensures '\n' !in lines[i]
    {
      LineFree(reports[i], '\n');
    }
    SplitJoin(lines, '\n');
    forall i | 0 <= i < |reports|
      ensures Levels(Split(lines[i], ' ')) == AsLevels(reports[i])
    {
      ReadReport(reports[i]);
    }
  }

  lemma LineFree(report: seq<nat>, c: char)
    requires !IsDigit(c) && c != ' '
    ensures c !in ReportLine(report)
  {
    var texts := seq(|report|, i requires 0 <= i < |report| => DecimalString(report[i]));
    forall i | 0 <= i < |texts|
      ensures c !in texts[i]
    {
      DigitsFree(texts[i], c);
    }
    JoinFree(texts, ' ', c);
  }

  lemma ReadReport(report: seq<nat>)
    requires |report| >= 1
    ensures Levels(Split(ReportLine(report), ' ')) == AsLevels(report)
  {
    var texts := seq(|report|, i requires 0 <= i < |report| => DecimalString(report[i]));
    forall i | 0 <= i < |texts|
      ensures ' ' !in texts[i]
    {
      DigitsFree(texts[i], ' ');
    }
    SplitJoin(texts, ' ');
    forall i | 0 <= i < |report|
      ensures Number(texts[i]) == Some(report[i] as int)
    {
      NumberOfDecimal(report[i]);
    }
  }

  /** A final newline adds the one-level report 0, and that report is
      safe, so it adds one to both answers. */
  lemma TrailingNewline(input: string)
    ensures ParseInput(input + "\n") == ParseInput(input) + [[Some(0)]]
    ensures CountSafe(ParseInput(input + "\n")) == CountSafe(ParseInput(input)) + 1
    ensures CountTolerated(ParseInput(input + "\n")) == CountTolerated(ParseInput(input)) + 1
  {
    ParseTrailing(input);
    CountLast(ParseInput(input), [Some(0)]);
  }

  lemma ParseTrailing(input: string)
    ensures ParseInput(input + "\n") == ParseInput(input) + [[Some(0)]]
  {
    SplitTrailing(input, '\n');
    var lines := Split(input, '\n');
    var a, b := ParseInput(input + "\n"), ParseInput(input);
    assert |a| == |b| + 1;
    forall i | 0 <= i < |b|
      ensures a[i] == b[i]
    {
      assert Split(input + "\n", '\n')[i] == lines[i];
    }
    assert Split(input + "\n", '\n')[|b|] == "";
    BlankLine();
  }

  /** An empty line reads as the one level 0. */
  lemma BlankLine()
    ensures Levels(Split("", ' ')) == [Some(0)]
  {
    assert Split("", ' ') == [""];
    assert TrimStart("") == "" && Trim("") == "";
  }

  lemma CountLast(reports: seq<seq<Level>>, last: seq<Level>)
    requires CheckReport(last)
    ensures CountSafe(reports + [last]) == CountSafe(reports) + 1
    ensures CountTolerated(reports + [last]) == CountTolerated(reports) + 1
  {
    assert (reports + [last])[..|reports|] == reports;
  }

  // ---------------------------------------------------------------------
  // One report

  /** `get_dir(cur, prev)`: 1 when cur is greater, otherwise -1, NaN
      included. */
  function Dir(cur: Level, prev: Level): (d: int)
    ensures d == 1 <==> cur.Some? && prev.Some? && cur.value > prev.value
    ensures d == 1 || d == -1
  {
    if cur.Some? && prev.Some? && cur.value > prev.value then 1 else -1
  }

  /** `report[i]`, undefined (None here, as it compares like NaN) past
      the end. */
  function At(report: seq<Level>, i: nat): Level {
    if i < |report| then report[i] else None
  }

  /** The direction of the first pair. */
  function FirstDir(report: seq<Level>): int {
    Dir(At(report, 1), At(report, 0))
  }

  /** The loop of `check_report` lets the step from prev to cur pass:
      every test of its `if` is false. */
  predicate StepOk(cur: Level, prev: Level, dir: int) {
    var low, high, same := (if cur.Some? && prev.Some? then Abs(cur.value - prev.value) < Low else false),
                           (if cur.Some? && prev.Some? then Abs(cur.value - prev.value) > High else false),
                           (cur.Some? && prev.Some? && cur.value == prev.value);
    !low && !high && !same && Dir(cur, prev) == dir
  }

  function Abs(x: int): nat {
    if x < 0 then -x else x
  }

  /** Every step from position i on passes. */
  predicate StepsOk(report: seq<Level>, i: nat, dir: int) {
    forall j :: i <= j < |report| && j >= 1 ==> StepOk(report[j], report[j - 1], dir)
  }

  /** `check_report(report)`: it returns at the first step that fails. */
  method CheckReportLoop(report: seq<Level>) returns (safe: bool)
    ensures safe <==> CheckReport(report)
  {
    var prev := At(report, 0);
    var dir := FirstDir(report);
    var i := 1;
    while i < |report|
      invariant 1 <= i && (|report| >= 1 ==> i <= |report|)
      invariant |report| >= 1 ==> prev == report[i - 1]
      invariant forall j :: 1 <= j < i && j < |report| ==> StepOk(report[j], report[j - 1], dir)
    {
      if !StepOk(report[i], prev, dir) {
        return false;
      }
      prev := report[i];
      i := i + 1;
    }
    return true;
  }

  /** What `check_report` answers. */
  predicate CheckReport(report: seq<Level>) {
    StepsOk(report, 1, FirstDir(report))
  }

  /** Every level is a number. */
  predicate AllNumbers(report: seq<Level>) {
    forall i :: 0 <= i < |report| ==> report[i].Some?
  }

  /** The puzzle's definition: the levels rise at every step, or fall at
      every step, by at least 1 and at most 3. */
  predicate Gradual(report: seq<Level>)
    requires AllNumbers(report)
  {
    (forall i :: 1 <= i < |report| ==> Low <= report[i].value - report[i - 1].value <= High) ||
    (forall i :: 1 <= i < |report| ==> Low <= report[i - 1].value - report[i].value <= High)
  }

  /** On numbers `check_report` is exactly the puzzle's rule. */
  lemma CheckReportGradual(report: seq<Level>)
    requires AllNumbers(report)
    ensures CheckReport(report) <==> Gradual(report)
  {
    if |report| >= 2 {
      var dir := FirstDir(report);
      if CheckReport(report) {
        if dir == 1 {
          forall i | 1 <= i < |report|
            ensures Low <= report[i].value - report[i - 1].value <= High
          {
            assert StepOk(report[i], report[i - 1], dir);
          }
        } else {
          forall i | 1 <= i < |report|
            ensures Low <= report[i - 1].value - report[i].value <= High
          {
            assert StepOk(report[i], report[i - 1], dir);
          }
        }
      }
      if Gradual(report) {
        assert StepOk(report[1], report[0], dir);
      }
    }
  }

  /** A safe report of numbers is strictly monotone. */
  lemma SafeMonotone(report: seq<Level>, i: nat, j: nat)
    requires AllNumbers(report) && CheckReport(report) && i < j < |report|
    ensures FirstDir(report) == 1 ==> report[i].value < report[j].value
    ensures FirstDir(report) == -1 ==> report[i].value > report[j].value
    decreases j - i
  {
    assert StepOk(report[j], report[j - 1], FirstDir(report));
    if i < j - 1 {
      SafeMonotone(report, i, j - 1);
    }
  }

  // ---------------------------------------------------------------------
  // Part 2

  /** `copy.slice(0, i).concat(copy.slice(i + 1))`. */
  function Remove(report: seq<Level>, i: nat): (r: seq<Level>)
    requires i < |report|
    ensures |r| == |report| - 1
    ensures forall j :: 0 <= j < i ==> r[j] == report[j]
    ensures forall j :: i <= j < |r| ==> r[j] == report[j + 1]
  {
    report[..i] + report[i + 1..]
  }

  /** Some single removal from position i on gives a safe report. */
  predicate SomeRemoval(report: seq<Level>, i: nat) {
    exists k :: i <= k < |report| && CheckReport(Remove(report, k))
  }

  /** The loop of `check_permutations` from position i on. */
  function RemovalsFrom(report: seq<Level>, i: nat): (ok: bool)
    requires i <= |report|
    ensures ok <==> SomeRemoval(report, i)
    decreases |report| - i
  {
    if i == |report| then false
    else if CheckReport(Remove(report, i)) then true
    else RemovalsFrom(report, i + 1)
  }

  /** `check_permutations(report)`: safe as it is, or safe once some one
      level is removed. */
  function CheckPermutations(report: seq<Level>): (ok: bool)
    ensures ok <==> CheckReport(report) || SomeRemoval(report, 0)
  {
    CheckReport(report) || RemovalsFrom(report, 0)
  }

  /** Part 1: `REPORTS.map(check_report).filter(x => x).length`. */
  function CountSafe(reports: seq<seq<Level>>): (n: nat)
    ensures n <= |reports|
    ensures n == |reports| <==> forall i :: 0 <= i < |reports| ==> CheckReport(reports[i])
  {
    if |reports| == 0 then 0
    else CountSafe(reports[..|reports| - 1]) + (if CheckReport(reports[|reports| - 1]) then 1 else 0)
  }

  /** Part 2: `REPORTS.map(check_permutations).filter(x => x).length`. */
  function CountTolerated(reports: seq<seq<Level>>): (n: nat)
    ensures n <= |reports|
    ensures n == |reports| <==> forall i :: 0 <= i < |reports| ==> CheckPermutations(reports[i])
  {
    if |reports| == 0 then 0
    else CountTolerated(reports[..|reports| - 1]) + (if CheckPermutations(reports[|reports| - 1]) then 1 else 0)
  }

  /** The dampener only adds reports: part 1 never exceeds part 2. */
  lemma {:induction false} SafeAtMostTolerated(reports: seq<seq<Level>>)
    ensures CountSafe(reports) <= CountTolerated(reports)
  {
    if |reports| > 0 {
      SafeAtMostTolerated(reports[..|reports| - 1]);
    }
  }

  /** Both answers of the puzzle for its input text. */
  function Solve(input: string): (r: (nat, nat))
    ensures r.0 <= r.1 <= |Split(input, '\n')|
  {
    var reports := ParseInput(input);
    SafeAtMostTolerated(reports);
    (CountSafe(reports), CountTolerated(reports))
  }
}
