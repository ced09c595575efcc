/** Page-ordering rules (day_5/solution.js): `a|b` rules say page a comes
    before page b; part 1 adds the middle pages of the chapters that break
    no rule, part 2 reorders the other chapters by swapping pages and adds
    their middle pages. */
module PageOrder {
  import opened Wrappers
  import opened Decimal
  import opened Text

  /** What the solver finds where it expects a page: a number, NaN from a
      piece `Number` cannot read, or `undefined` from a missing array slot
      (a rule line without `|`). */
  datatype Value = Num(n: int) | NaN | Undefined

  /** A rule line split on `|`: the first two entries are the pages. */
  type Rule = seq<Value>

  function ToValue(r: Option<int>): Value {
    if r.Some? then Num(r.value) else NaN
  }

  /** What `parseInput` returns. */
  datatype Input = Input(rules: seq<Rule>, chapters: seq<seq<Value>>)

  /** `pieces.map(Number)`. */
  function Values(pieces: seq<string>): (r: seq<Value>)
    ensures |r| == |pieces|
    ensures forall i :: 0 <= i < |pieces| ==> r[i] == ToValue(Number(pieces[i]))
  {
    seq(|pieces|, i requires 0 <= i < |pieces| => ToValue(Number(pieces[i])))
  }

  /** `lines.map(line => line.split(sep).map(Number))`. */
  function Pages(lines: seq<string>, sep: char): (r: seq<seq<Value>>)
    ensures |r| == |lines|
    ensures forall i :: 0 <= i < |lines| ==> r[i] == Values(Split(lines[i], sep))
  {
    seq(|lines|, i requires 0 <= i < |lines| => Values(Split(lines[i], sep)))
  }

  /** `parseInput(input)`: the rules are the lines before the first blank
      one and the chapters the lines after it. Without a blank line
      `slice(0, -1)` leaves the last line out of the rules and the
      chapters are all the lines. */
  function ParseInput(input: string): (r: Input)
    ensures var lines := Split(input, '\n');
      |r.rules| + |r.chapters| == |lines| + (if "" in lines then -1 else |lines| - 1)
    ensures var lines := Split(input, '\n');
      "" !in lines ==> r.rules == Pages(lines[..|lines| - 1], '|') && r.chapters == Pages(lines, ',')
    ensures var lines := Split(input, '\n');
      forall k :: 0 <= k < |lines| && lines[k] == "" && "" !in lines[..k] ==>
        r.rules == Pages(lines[..k], '|') && r.chapters == Pages(lines[k + 1..], ',')
  {
    var lines := Split(input, '\n');
    var blank := Find(lines, "");
    var rules := lines[..if blank == -1 then |lines| - 1 else blank];
    var chapters := lines[blank + 1..];
    Input(Pages(rules, '|'), Pages(chapters, ','))
  }

  /** A rule as the puzzle writes it, `a|b`. */
  function RuleLine(rule: (nat, nat)): string {
    DecimalString(rule.0) + "|" + DecimalString(rule.1)
  }

  /** A chapter as the puzzle writes it, pages separated by commas. */
  function ChapterLine(chapter: seq<nat>): string {
    Join(seq(|chapter|, i requires 0 <= i < |chapter| => DecimalString(chapter[i])), ',')
  }

  /** The puzzle's lines: the rules, a blank line, the chapters. */
  function InputLines(rules: seq<(nat, nat)>, chapters: seq<seq<nat>>): (r: seq<string>)
    ensures |r| == |rules| + 1 + |chapters|
  {
    seq(|rules|, i requires 0 <= i < |rules| => RuleLine(rules[i])) + [""] +
    seq(|chapters|, i requires 0 <= i < |chapters| => ChapterLine(chapters[i]))
  }

  function InputText(rules: seq<(nat, nat)>, chapters: seq<seq<nat>>): string {
    Join(InputLines(rules, chapters), '\n')
  }

  /** Numbers as values. */
  function Nums(pages: seq<nat>): (r: seq<Value>)
    ensures |r| == |pages| && forall i :: 0 <= i < |pages| ==> r[i] == Num(pages[i])
  {
    seq(|pages|, i requires 0 <= i < |pages| => Num(pages[i]))
  }

  /** Parsing the puzzle text gives back its rules and chapters. */
  lemma ParseInputOfText(rules: seq<(nat, nat)>, chapters: seq<seq<nat>>)
    requires forall i :: 0 <= i < |chapters| ==> |chapters[i]| >= 1
    ensures ParseInput(InputText(rules, chapters)) ==
      Input(seq(|rules|, i requires 0 <= i < |rules| => [Num(rules[i].0), Num(rules[i].1)]),
            seq(|chapters|, i requires 0 <= i < |chapters| => Nums(chapters[i])))
  {
    var lines := InputLines(rules, chapters);
    SplitLines(rules, chapters);
    BlankAfterRules(rules, chapters);
    RulesBack(rules, chapters);
    ChaptersBack(rules, chapters);
  }

  lemma RulesBack(rules: seq<(nat, nat)>, chapters: seq<seq<nat>>)
    ensures Pages(InputLines(rules, chapters)[..|rules|], '|') ==
      seq(|rules|, i requires 0 <= i < |rules| => [Num(rules[i].0), Num(rules[i].1)])
  {
    var lines := InputLines(rules, chapters)[..|rules|];
    forall i | 0 <= i < |rules|
      ensures Values(Split(lines[i], '|')) == [Num(rules[i].0), Num(rules[i].1)]
    {
      assert lines[i] == RuleLine(rules[i]);
      ReadRule(rules[i]);
    }
  }

  lemma ChaptersBack(rules: seq<(nat, nat)>, chapters: seq<seq<nat>>)
    requires forall i :: 0 <= i < |chapters| ==> |chapters[i]| >= 1
    ensures Pages(InputLines(rules, chapters)[|rules| + 1..], ',') ==
      seq(|chapters|, i requires 0 <= i < |chapters| => Nums(chapters[i]))
  {
    var lines := InputLines(rules, chapters)[|rules| + 1..];
    forall i | 0 <= i < |chapters|
      ensures Values(Split(lines[i], ',')) == Nums(chapters[i])
    {
      assert lines[i] == ChapterLine(chapters[i]);
      ReadChapter(chapters[i]);
    }
  }

  lemma SplitLines(rules: seq<(nat, nat)>, chapters: seq<seq<nat>>)
    ensures Split(InputText(rules, chapters), '\n') == InputLines(rules, chapters)
  {
    var lines := InputLines(rules, chapters);
    forall i | 0 <= i < |lines|
      ensures '\n' !in lines[i]
    {
      if i < |rules| {
        RuleLineFree(rules[i], '\n');
      } else if i > |rules| {
        ChapterLineFree(chapters[i - |rules| - 1], '\n');
      }
    }
    SplitJoin(lines, '\n');
  }

  lemma BlankAfterRules(rules: seq<(nat, nat)>, chapters: seq<seq<nat>>)
    ensures Find(InputLines(rules, chapters), "") == |rules|
  {
    var lines := InputLines(rules, chapters);
    forall i | 0 <= i < |rules|
      ensures lines[i] != ""
    {
      assert lines[i] == RuleLine(rules[i]);
      assert |RuleLine(rules[i])| >= 1;
    }
    FindFirstBlank(lines, |rules|);
  }

  lemma FindFirstBlank(lines: seq<string>, k: nat)
    requires k < |lines| && lines[k] == ""
    requires forall i :: 0 <= i < k ==> lines[i] != ""
    ensures Find(lines, "") == k
  {
    var j := Find(lines, "");
    assert "" in lines;
    assert forall i :: 0 <= i < j ==> lines[..j][i] == lines[i];
  }

  lemma RuleLineFree(rule: (nat, nat), c: char)
    requires !IsDigit(c) && c != '|'
    ensures c !in RuleLine(rule)
  {
    DigitsFree(DecimalString(rule.0), c);
    DigitsFree(DecimalString(rule.1), c);
  }

  lemma ChapterLineFree(chapter: seq<nat>, c: char)
    requires !IsDigit(c) && c != ','
    ensures c !in ChapterLine(chapter)
  {
    var texts := seq(|chapter|, i requires 0 <= i < |chapter| => DecimalString(chapter[i]));
    forall i | 0 <= i < |texts|
      ensures c !in texts[i]
    {
      DigitsFree(texts[i], c);
    }
    JoinFree(texts, ',', c);
  }

  lemma ReadRule(rule: (nat, nat))
    ensures Values(Split(RuleLine(rule), '|')) == [Num(rule.0), Num(rule.1)]
  {
    var a, b := DecimalString(rule.0), DecimalString(rule.1);
    DigitsFree(a, '|');
    DigitsFree(b, '|');
    NumberOfDecimal(rule.0);
    NumberOfDecimal(rule.1);
    ReadPair(a, b, '|', rule.0, rule.1);
  }

  /** Two numbers around one separator read back as the two numbers. */
  lemma ReadPair(a: string, b: string, sep: char, x: nat, y: nat)
    requires sep !in a && sep !in b
    requires Number(a) == Some(x) && Number(b) == Some(y)
    ensures Values(Split(a + [sep] + b, sep)) == [Num(x), Num(y)]
  {
    assert Join([a, b], sep) == a + [sep] + b;
    SplitJoin([a, b], sep);
  }

  lemma ReadChapter(chapter: seq<nat>)
    requires |chapter| >= 1
    ensures Values(Split(ChapterLine(chapter), ',')) == Nums(chapter)
  {
    var texts := seq(|chapter|, i requires 0 <= i < |chapter| => DecimalString(chapter[i]));
    forall i | 0 <= i < |texts|
      ensures ',' !in texts[i]
    {
      DigitsFree(texts[i], ',');
    }
    SplitJoin(texts, ',');
    forall i | 0 <= i < |chapter|
      ensures ToValue(Number(texts[i])) == Num(chapter[i])
    {
      NumberOfDecimal(chapter[i]);
    }
  }

  /** `rule[0]` and `rule[1]`, undefined past the end. */
  function Left(rule: Rule): Value {
    if |rule| >= 1 then rule[0] else Undefined
  }

  function Right(rule: Rule): Value {
    if |rule| >= 2 then rule[1] else Undefined
  }

  /** `chapter.indexOf(v)`: `===` never matches NaN. */
  function IndexOf(chapter: seq<Value>, v: Value): (k: int)
    ensures -1 <= k < |chapter|
    ensures k == -1 <==> v.NaN? || v !in chapter
    ensures k >= 0 ==> chapter[k] == v && v !in chapter[..k]
  {
    if v.NaN? then -1 else Find(chapter, v)
  }

  // ---------------------------------------------------------------------
  // Part 1: checking a chapter

  /** Rule a|b is broken when both pages are in the chapter and a does
      not come first. */
  predicate Broken(rule: Rule, chapter: seq<Value>) {
    var l, r := IndexOf(chapter, Left(rule)), IndexOf(chapter, Right(rule));
    l != -1 && r != -1 && l >= r
  }

  /** The reference: no rule is broken. */
  predicate Correct(rules: seq<Rule>, chapter: seq<Value>) {
    forall i :: 0 <= i < |rules| ==> !Broken(rules[i], chapter)
  }

  /** Only pages missing from the chapter are remembered as missing. The
      source files them under `String(page)`, which tells numbers, NaN
      and undefined apart, so a set of values stands for it. */
  predicate Missing(memo: set<Value>, chapter: seq<Value>) {
    forall v :: v in memo ==> IndexOf(chapter, v) == -1
  }

  /** The loop of `isChapterCorrect` from a given rule on, with its memo
      of pages found missing. */
  function CheckRules(rules: seq<Rule>, chapter: seq<Value>, memo: set<Value>): bool
    decreases |rules|
  {
    if |rules| == 0 then true
    else
      var a, b := Left(rules[0]), Right(rules[0]);
      if a in memo then CheckRules(rules[1..], chapter, memo)
      else if IndexOf(chapter, a) == -1 then CheckRules(rules[1..], chapter, memo + {a})
      else if b in memo then CheckRules(rules[1..], chapter, memo)
      else if IndexOf(chapter, b) == -1 then CheckRules(rules[1..], chapter, memo + {b})
      else if IndexOf(chapter, a) >= IndexOf(chapter, b) then false
      else CheckRules(rules[1..], chapter, memo)
  }

  /** The memo only skips rules that would be skipped anyway: the loop
      answers whether the chapter breaks no rule. */
  lemma {:induction false} CheckRulesCorrect(rules: seq<Rule>, chapter: seq<Value>, memo: set<Value>)
    requires Missing(memo, chapter)
    ensures CheckRules(rules, chapter, memo) <==> Correct(rules, chapter)
    decreases |rules|
  {
    if |rules| > 0 {
      var a, b := Left(rules[0]), Right(rules[0]);
      var rest := rules[1..];
      CorrectFirst(rules, chapter);
      if a in memo {
        CheckRulesCorrect(rest, chapter, memo);
      } else if IndexOf(chapter, a) == -1 {
        CheckRulesCorrect(rest, chapter, memo + {a});
      } else if b in memo {
        CheckRulesCorrect(rest, chapter, memo);
      } else if IndexOf(chapter, b) == -1 {
        CheckRulesCorrect(rest, chapter, memo + {b});
      } else if IndexOf(chapter, a) < IndexOf(chapter, b) {
        CheckRulesCorrect(rest, chapter, memo);
      }
    }
  }

  lemma CorrectFirst(rules: seq<Rule>, chapter: seq<Value>)
    requires |rules| > 0
    ensures Correct(rules, chapter) <==> !Broken(rules[0], chapter) && Correct(rules[1..], chapter)
  {
    if !Broken(rules[0], chapter) && Correct(rules[1..], chapter) {
      forall i | 0 <= i < |rules|
        ensures !Broken(rules[i], chapter)
      {
        if i > 0 {
          assert rules[i] == rules[1..][i - 1];
        }
      }
    }
  }

  /** `isChapterCorrect(rules, chapter)`. */
  function IsChapterCorrect(rules: seq<Rule>, chapter: seq<Value>): (ok: bool)
    ensures ok <==> Correct(rules, chapter)
  {
    CheckRulesCorrect(rules, chapter, {});
    CheckRules(rules, chapter, {})
  }

  /** `chapter[(chapter.length - 1) / 2]`: the middle page, undefined
      when the length is even and the index has a fraction. */
  function Middle(chapter: seq<Value>): (m: Value)
    ensures |chapter| % 2 == 1 ==> m in chapter
    ensures |chapter| % 2 == 0 ==> m == Undefined
  {
    if |chapter| % 2 == 1 then chapter[(|chapter| - 1) / 2] else Undefined
  }

  /** `answer += v` on a number: NaN unless both sides are numbers. */
  function Plus(a: Value, b: Value): (r: Value)
    ensures r.Num? <==> a.Num? && b.Num?
    ensures r.Num? ==> r.n == a.n + b.n
  {
    if a.Num? && b.Num? then Num(a.n + b.n) else NaN
  }

  /** `String(v)` as `join('')` writes it. */
  function ValueText(v: Value): string {
    match v
    case Num(n) => IntText(n)
    case NaN => "NaN"
    case Undefined => ""
  }

  /** `chapter.join('')`, the key part 1 files correct chapters under. */
  function Key(chapter: seq<Value>): string
    decreases |chapter|
  {
    if |chapter| == 0 then "" else Key(chapter[..|chapter| - 1]) + ValueText(chapter[|chapter| - 1])
  }

  /** The result of `solvePart1`: its answer and the keys it leaves in
      the shared memo. */
  datatype Checked = Checked(answer: Value, memo: set<string>)

  /** `solvePart1` over the first chapters. */
  function Part1(rules: seq<Rule>, chapters: seq<seq<Value>>): (r: Checked)
    decreases |chapters|
  {
    if |chapters| == 0 then Checked(Num(0), {})
    else
      var c := Part1(rules, chapters[..|chapters| - 1]);
      var ch := chapters[|chapters| - 1];
      if IsChapterCorrect(rules, ch) then Checked(Plus(c.answer, Middle(ch)), c.memo + {Key(ch)})
      else c
  }

  /** The memo holds exactly the keys of the correct chapters. */
  lemma {:induction false} Part1Memo(rules: seq<Rule>, chapters: seq<seq<Value>>, key: string)
    ensures key in Part1(rules, chapters).memo <==> AnyKeyed(rules, chapters, key)
    decreases |chapters|
  {
    if |chapters| > 0 {
      Part1Memo(rules, chapters[..|chapters| - 1], key);
      AnyKeyedLast(rules, chapters, key);
    }
  }

  /** The chapter is correct and filed under key. */
  predicate KeyedCorrect(rules: seq<Rule>, chapter: seq<Value>, key: string) {
    Correct(rules, chapter) && Key(chapter) == key
  }

  /** Some correct chapter is filed under key. */
  predicate AnyKeyed(rules: seq<Rule>, chapters: seq<seq<Value>>, key: string) {
    exists i :: 0 <= i < |chapters| && KeyedCorrect(rules, chapters[i], key)
  }

  lemma AnyKeyedLast(rules: seq<Rule>, chapters: seq<seq<Value>>, key: string)
    requires |chapters| > 0
    ensures AnyKeyed(rules, chapters, key) <==>
      AnyKeyed(rules, chapters[..|chapters| - 1], key) || KeyedCorrect(rules, chapters[|chapters| - 1], key)
  {
    var init := chapters[..|chapters| - 1];
    if AnyKeyed(rules, init, key) {
      var i :| 0 <= i < |init| && KeyedCorrect(rules, init[i], key);
      assert chapters[i] == init[i];
    }
    if AnyKeyed(rules, chapters, key) {
      var i :| 0 <= i < |chapters| && KeyedCorrect(rules, chapters[i], key);
      if i < |init| {
        assert init[i] == chapters[i];
      }
    }
  }

  // ---------------------------------------------------------------------
  // Part 2: reordering

  /** What `consolidateRules` builds: each left page's right pages. */
  type Consolidated = map<Value, seq<Value>>

  /** The right pages of the rules whose left page is a, in rule order. */
  function RightsOf(rules: seq<Rule>, a: Value): seq<Value>
    decreases |rules|
  {
    if |rules| == 0 then []
    else RightsOf(rules[..|rules| - 1], a) + (if Left(rules[|rules| - 1]) == a then [Right(rules[|rules| - 1])] else [])
  }

  /** `consolidateRules(rules)`: a left page is a key exactly when some
      rule starts with it, and it maps to its right pages in rule order. */
  function Consolidate(rules: seq<Rule>): (c: Consolidated)
    ensures forall a :: a in c ==> c[a] == RightsOf(rules, a) && |c[a]| > 0
    ensures forall a :: a !in c ==> RightsOf(rules, a) == []
    decreases |rules|
  {
    if |rules| == 0 then map[]
    else
      var c := Consolidate(rules[..|rules| - 1]);
      var a, b := Left(rules[|rules| - 1]), Right(rules[|rules| - 1]);
      c[a := (if a in c then c[a] else []) + [b]]
  }

  /** `chapter[p1]` and `chapter[p2]` exchanged. */
  function Swap(chapter: seq<Value>, p1: nat, p2: nat): (r: seq<Value>)
    requires p1 < |chapter| && p2 < |chapter|
    ensures |r| == |chapter| && multiset(r) == multiset(chapter)
    ensures r[p1] == chapter[p2] && r[p2] == chapter[p1]
    ensures forall i :: 0 <= i < |chapter| && i != p1 && i != p2 ==> r[i] == chapter[i]
  {
    chapter[p1 := chapter[p2]][p2 := chapter[p1]]
  }

  /** Every page of the chapter starts some rule. */
  predicate AllRuled(cons: Consolidated, chapter: seq<Value>) {
    forall i :: 0 <= i < |chapter| ==> chapter[i] in cons
  }

  /** The inner loop over p2 for a fixed p1: swap when the page at p1
      must come before the page at p2. `consolidated[chapter[p1]]` is
      looked up afresh each time, and after a swap it can be undefined,
      whose `includes` throws. */
  function SwapFrom(cons: Consolidated, chapter: seq<Value>, p1: nat, p2: nat): (r: Result<seq<Value>, JsError>)
    requires p2 <= p1 < |chapter|
    ensures r.Success? ==> |r.value| == |chapter| && multiset(r.value) == multiset(chapter)
    ensures r.Failure? ==> r.error == TypeError && !AllRuled(cons, chapter)
    ensures AllRuled(cons, chapter) ==> r.Success?
    decreases p1 - p2
  {
    if p2 == p1 then Success(chapter)
    else if chapter[p1] !in cons then Failure(TypeError)
    else if chapter[p2] !in cons[chapter[p1]] then SwapFrom(cons, chapter, p1, p2 + 1)
    else
      var s := Swap(chapter, p1, p2);
      PermutedRuled(cons, chapter, s);
      SwapFrom(cons, s, p1, p2 + 1)
  }

  /** A permutation of a chapter has the same pages. */
  lemma PermutedRuled(cons: Consolidated, a: seq<Value>, b: seq<Value>)
    requires multiset(a) == multiset(b)
    ensures AllRuled(cons, a) <==> AllRuled(cons, b)
  {
    forall i | 0 <= i < |b|
      ensures b[i] in multiset(a)
    {
      assert b[i] in multiset(b);
    }
    forall i | 0 <= i < |a|
      ensures a[i] in multiset(b)
    {
      assert a[i] in multiset(a);
    }
  }

  /** The outer loop over p1 from a given position on. */
  function ReorderFrom(cons: Consolidated, chapter: seq<Value>, p1: nat): (r: Result<seq<Value>, JsError>)
    requires p1 <= |chapter|
    ensures r.Success? ==> |r.value| == |chapter| && multiset(r.value) == multiset(chapter)
    ensures r.Failure? ==> r.error == TypeError && !AllRuled(cons, chapter)
    ensures AllRuled(cons, chapter) ==> r.Success?
    decreases |chapter| - p1
  {
    if p1 == |chapter| then Success(chapter)
    else if chapter[p1] !in cons then ReorderFrom(cons, chapter, p1 + 1)
    else
      var s := SwapFrom(cons, chapter, p1, 0);
      if s.Failure? then Failure(s.error)
      else
        PermutedRuled(cons, chapter, s.value);
        ReorderFrom(cons, s.value, p1 + 1)
  }

  /** The swaps part 2 makes on one chapter: the result is a
      rearrangement of the same pages, and it fails only when a page
      that starts no rule is moved to where it is looked up. */
  function Reorder(cons: Consolidated, chapter: seq<Value>): (r: Result<seq<Value>, JsError>)
    ensures r.Success? ==> |r.value| == |chapter| && multiset(r.value) == multiset(chapter)
    ensures r.Failure? ==> r.error == TypeError && !AllRuled(cons, chapter)
    ensures AllRuled(cons, chapter) ==> r.Success?
  {
    ReorderFrom(cons, chapter, 0)
  }

  /** `solvePart2` over the first chapters, skipping the ones whose key
      part 1 left in the memo. */
  function Part2(cons: Consolidated, chapters: seq<seq<Value>>, memo: set<string>): (r: Result<Value, JsError>)
    decreases |chapters|
  {
    if |chapters| == 0 then Success(Num(0))
    else
      var rest := Part2(cons, chapters[..|chapters| - 1], memo);
      var ch := chapters[|chapters| - 1];
      if rest.Failure? then rest
      else if Key(ch) in memo then rest
      else
        var re := Reorder(cons, ch);
        if re.Failure? then Failure(re.error) else Success(Plus(rest.value, Middle(re.value)))
  }


  // ---------------------------------------------------------------------
  // The memo key

  /** A chapter's pages are distinct numbers. */
  predicate Clean(chapter: seq<Value>) {
    (forall i :: 0 <= i < |chapter| ==> !chapter[i].NaN?) &&
    forall i, j :: 0 <= i < j < |chapter| ==> chapter[i] != chapter[j]
  }

  /** Every page is a natural number written with d digits. */
  predicate Width(chapter: seq<Value>, d: nat) {
    forall i :: 0 <= i < |chapter| ==> chapter[i].Num? && chapter[i].n >= 0 && Digits(chapter[i].n) == d
  }

  lemma {:induction false} KeyLength(chapter: seq<Value>, d: nat)
    requires Width(chapter, d)
    ensures |Key(chapter)| == d * |chapter|
    decreases |chapter|
  {
    if |chapter| > 0 {
      var init, last := chapter[..|chapter| - 1], chapter[|chapter| - 1];
      assert Width(init, d);
      KeyLength(init, d);
      LastText(chapter, d);
      assert d * (|chapter| - 1) + d == d * |chapter|;
    }
  }

  /** The key ends with the text of the last page. */
  lemma LastText(chapter: seq<Value>, d: nat)
    requires |chapter| > 0 && Width(chapter, d)
    ensures Key(chapter) == Key(chapter[..|chapter| - 1]) + DecimalString(chapter[|chapter| - 1].n)
    ensures |DecimalString(chapter[|chapter| - 1].n)| == d
  {
    var last := chapter[|chapter| - 1];
    assert ValueText(last) == IntText(last.n) == DecimalString(last.n);
  }

  /** When every page has the same number of digits, the key tells
      chapters apart. */
  lemma {:induction false} KeyInjective(a: seq<Value>, b: seq<Value>, d: nat)
    requires d >= 1 && Width(a, d) && Width(b, d) && Key(a) == Key(b)
    ensures a == b
    decreases |a|
  {
    KeysSameLength(a, b, d);
    if |a| > 0 {
      var ia, ib := a[..|a| - 1], b[..|b| - 1];
      LastPageEqual(a, b, d);
      KeyInjective(ia, ib, d);
      SameParts(a, b);
    }
  }

  /** Sequences that agree on all but the last element and on the last
      one are equal. */
  lemma SameParts<T>(a: seq<T>, b: seq<T>)
    requires |a| == |b| > 0 && a[..|a| - 1] == b[..|b| - 1] && a[|a| - 1] == b[|b| - 1]
    ensures a == b
  {
    assert a == a[..|a| - 1] + [a[|a| - 1]];
    assert b == b[..|b| - 1] + [b[|b| - 1]];
  }

  /** Equal keys of equally long chapters of d-digit pages end with the
      same page. */
  lemma LastPageEqual(a: seq<Value>, b: seq<Value>, d: nat)
    requires |a| == |b| > 0 && Width(a, d) && Width(b, d) && Key(a) == Key(b)
    ensures a[|a| - 1] == b[|b| - 1]
    ensures Width(a[..|a| - 1], d) && Width(b[..|b| - 1], d)
    ensures Key(a[..|a| - 1]) == Key(b[..|b| - 1])
  {
    WidthInit(a, d);
    WidthInit(b, d);
    LastText(a, d);
    LastText(b, d);
    var x, y := a[|a| - 1].n, b[|b| - 1].n;
    SplitKeys(Key(a[..|a| - 1]), DecimalString(x), Key(b[..|b| - 1]), DecimalString(y));
    DecimalInjective(x, y);
  }

  lemma WidthInit(a: seq<Value>, d: nat)
    requires |a| > 0 && Width(a, d)
    ensures Width(a[..|a| - 1], d)
  {
  }

  lemma KeysSameLength(a: seq<Value>, b: seq<Value>, d: nat)
    requires d >= 1 && Width(a, d) && Width(b, d) && Key(a) == Key(b)
    ensures |a| == |b|
  {
    KeyLength(a, d);
    KeyLength(b, d);
    SameLength(|a|, |b|, d);
  }

  lemma SameLength(m: nat, n: nat, d: nat)
    requires d >= 1 && d * m == d * n
    ensures m == n
  {
    MulOrder(d, m, n);
    MulOrder(d, n, m);
  }

  lemma MulOrder(d: nat, m: nat, n: nat)
    requires d >= 1
    ensures m < n ==> d * m < d * n
  {
    if m < n {
      assert d * n == d * m + d * (n - m);
    }
  }

  /** Equal strings cut after equally long prefixes. */
  lemma SplitKeys(p: string, s: string, q: string, t: string)
    requires p + s == q + t && |s| == |t|
    ensures p == q && s == t
  {
    assert p == (p + s)[..|p|];
    assert q == (q + t)[..|q|];
    assert s == (p + s)[|p|..];
    assert t == (q + t)[|q|..];
  }

  /** With pages of different widths two chapters share a key. */
  lemma KeyCollision()
    ensures Key([Num(12), Num(3), Num(5)]) == Key([Num(1), Num(23), Num(5)]) == "1235"
  {
    KeyOfThree(Num(12), Num(3), Num(5));
    KeyOfThree(Num(1), Num(23), Num(5));
    assert DecimalString(1) == "1" && DecimalString(2) == "2" && DecimalString(3) == "3" && DecimalString(5) == "5";
    assert DigitChar(2) == '2' && DigitChar(3) == '3';
    assert DecimalString(12) == DecimalString(1) + [DigitChar(2)] == "12";
    assert DecimalString(23) == DecimalString(2) + [DigitChar(3)] == "23";
    assert ValueText(Num(12)) == "12" && ValueText(Num(23)) == "23";
    assert ValueText(Num(1)) == "1" && ValueText(Num(3)) == "3" && ValueText(Num(5)) == "5";
    assert "12" + "3" + "5" == "1235" && "1" + "23" + "5" == "1235";
  }

  lemma KeyOfThree(x: Value, y: Value, z: Value)
    ensures Key([x, y, z]) == ValueText(x) + ValueText(y) + ValueText(z)
  {
    assert [x, y, z][..2] == [x, y] && [x, y][..1] == [x] && [x][..0] == [];
    assert Key([x]) == ValueText(x);
    assert Key([x, y]) == Key([x]) + ValueText(y);
    assert Key([x, y, z]) == Key([x, y]) + ValueText(z);
  }

  /** Part 2 as intended: reorder and count exactly the chapters part 1
      found incorrect. */
  function Part2Fixed(rules: seq<Rule>, cons: Consolidated, chapters: seq<seq<Value>>): (r: Result<Value, JsError>)
    decreases |chapters|
  {
    if |chapters| == 0 then Success(Num(0))
    else
      var rest := Part2Fixed(rules, cons, chapters[..|chapters| - 1]);
      var ch := chapters[|chapters| - 1];
      if rest.Failure? || IsChapterCorrect(rules, ch) then rest
      else
        var re := Reorder(cons, ch);
        if re.Failure? then Failure(re.error) else Success(Plus(rest.value, Middle(re.value)))
  }

  /** The memo is keyed faithfully for these chapters. */
  predicate KeysDistinct(chapters: seq<seq<Value>>) {
    forall i, j :: 0 <= i < |chapters| && 0 <= j < |chapters| && Key(chapters[i]) == Key(chapters[j]) ==> chapters[i] == chapters[j]
  }

  /** Part 2 as written skips key k exactly when a correct chapter has
      that key; so on chapters whose keys are distinct it is part 2 as
      intended. */
  lemma Part2AsIntended(rules: seq<Rule>, chapters: seq<seq<Value>>)
    requires KeysDistinct(chapters)
    ensures Part2(Consolidate(rules), chapters, Part1(rules, chapters).memo) == Part2Fixed(rules, Consolidate(rules), chapters)
  {
    var memo := Part1(rules, chapters).memo;
    forall i | 0 <= i < |chapters|
      ensures Key(chapters[i]) in memo <==> Correct(rules, chapters[i])
    {
      Part1Memo(rules, chapters, Key(chapters[i]));
      if AnyKeyed(rules, chapters, Key(chapters[i])) {
        var j :| 0 <= j < |chapters| && KeyedCorrect(rules, chapters[j], Key(chapters[i]));
      }
    }
    Part2Memo(rules, chapters, memo);
  }

  lemma {:induction false} Part2Memo(rules: seq<Rule>, chapters: seq<seq<Value>>, memo: set<string>)
    requires forall i :: 0 <= i < |chapters| ==> (Key(chapters[i]) in memo <==> Correct(rules, chapters[i]))
    ensures Part2(Consolidate(rules), chapters, memo) == Part2Fixed(rules, Consolidate(rules), chapters)
    decreases |chapters|
  {
    if |chapters| > 0 {
      var init := chapters[..|chapters| - 1];
      assert forall i :: 0 <= i < |init| ==> init[i] == chapters[i];
      Part2Memo(rules, init, memo);
      Part2Last(rules, chapters, memo);
    }
  }

  lemma Part2Last(rules: seq<Rule>, chapters: seq<seq<Value>>, memo: set<string>)
    requires |chapters| > 0
    requires Key(chapters[|chapters| - 1]) in memo <==> IsChapterCorrect(rules, chapters[|chapters| - 1])
    requires Part2(Consolidate(rules), chapters[..|chapters| - 1], memo) == Part2Fixed(rules, Consolidate(rules), chapters[..|chapters| - 1])
    ensures Part2(Consolidate(rules), chapters, memo) == Part2Fixed(rules, Consolidate(rules), chapters)
  {
  }

  /** The rules `23|1` and the chapters `12,3,5` and `1,23,5`: the first is
      correct, the second is not, yet part 2 as written skips it because
      both are filed under `1235`; as intended, part 2 reorders it to
      `23,1,5` and counts its middle page 1. */
  lemma SkippedChapter()
    ensures var rules := [[Num(23), Num(1)]];
      var chapters := [[Num(12), Num(3), Num(5)], [Num(1), Num(23), Num(5)]];
      Part2(Consolidate(rules), chapters, Part1(rules, chapters).memo) == Success(Num(0)) &&
      Part2Fixed(rules, Consolidate(rules), chapters) == Success(Num(1))
  {
    var rules := [[Num(23), Num(1)]];
    var a, b := [Num(12), Num(3), Num(5)], [Num(1), Num(23), Num(5)];
    KeyCollision();
    ExampleCorrectness();
    ExampleMemo(rules, a, b);
    ExampleAsWritten(rules, a, b);
    ConsolidateExample();
    ReorderExample(Consolidate(rules));
    ExampleFixed(rules, Consolidate(rules), a, b);
  }

  lemma ExampleCorrectness()
    ensures Correct([[Num(23), Num(1)]], [Num(12), Num(3), Num(5)])
    ensures !Correct([[Num(23), Num(1)]], [Num(1), Num(23), Num(5)])
  {
    var rules := [[Num(23), Num(1)]];
    var a, b := [Num(12), Num(3), Num(5)], [Num(1), Num(23), Num(5)];
    assert IndexOf(a, Num(23)) == -1;
    assert IndexOf(b, Num(23)) == 1 && IndexOf(b, Num(1)) == 0;
    assert Broken(rules[0], b);
  }

  lemma ExampleMemo(rules: seq<Rule>, a: seq<Value>, b: seq<Value>)
    requires Correct(rules, a) && !Correct(rules, b) && Key(a) == "1235"
    ensures Part1(rules, [a, b]).memo == {"1235"}
  {
    assert [a, b][..1] == [a] && [a][..0] == [];
    assert IsChapterCorrect(rules, a) && !IsChapterCorrect(rules, b);
    assert Part1(rules, [a]).memo == Part1(rules, []).memo + {Key(a)};
  }

  /** Chapters whose keys are all in the memo are all skipped. */
  lemma {:induction false} SkipAll(cons: Consolidated, chapters: seq<seq<Value>>, memo: set<string>)
    requires forall i :: 0 <= i < |chapters| ==> Key(chapters[i]) in memo
    ensures Part2(cons, chapters, memo) == Success(Num(0))
    decreases |chapters|
  {
    if |chapters| > 0 {
      var init := chapters[..|chapters| - 1];
      assert forall i :: 0 <= i < |init| ==> init[i] == chapters[i];
      SkipAll(cons, init, memo);
    }
  }

  lemma ExampleAsWritten(rules: seq<Rule>, a: seq<Value>, b: seq<Value>)
    requires Key(a) == "1235" && Key(b) == "1235" && Part1(rules, [a, b]).memo == {"1235"}
    ensures Part2(Consolidate(rules), [a, b], Part1(rules, [a, b]).memo) == Success(Num(0))
  {
    SkipAll(Consolidate(rules), [a, b], {"1235"});
  }

  lemma ExampleFixed(rules: seq<Rule>, cons: Consolidated, a: seq<Value>, b: seq<Value>)
    requires IsChapterCorrect(rules, a) && !IsChapterCorrect(rules, b)
    requires Reorder(cons, b) == Success([Num(23), Num(1), Num(5)])
    ensures Part2Fixed(rules, cons, [a, b]) == Success(Num(1))
  {
    assert [a, b][..1] == [a] && [a][..0] == [];
    var p0 := Part2Fixed(rules, cons, []);
    assert p0 == Success(Num(0));
    var p1 := Part2Fixed(rules, cons, [a]);
    assert p1 == p0;
    assert Middle([Num(23), Num(1), Num(5)]) == Num(1);
  }

  lemma ConsolidateExample()
    ensures var cons := Consolidate([[Num(23), Num(1)]]);
      Num(23) in cons && cons[Num(23)] == [Num(1)] && Num(1) !in cons && Num(5) !in cons
  {
    var rules := [[Num(23), Num(1)]];
    assert rules[..0] == [];
    assert Consolidate(rules[..0]) == map[];
  }

  lemma ReorderExample(cons: Consolidated)
    requires Num(23) in cons && cons[Num(23)] == [Num(1)] && Num(1) !in cons && Num(5) !in cons
    ensures Reorder(cons, [Num(1), Num(23), Num(5)]) == Success([Num(23), Num(1), Num(5)])
  {
    var ch := [Num(1), Num(23), Num(5)];
    var sw := [Num(23), Num(1), Num(5)];
    assert Swap(ch, 1, 0) == sw;
    assert SwapFrom(cons, sw, 1, 1) == Success(sw);
    assert SwapFrom(cons, ch, 1, 0) == Success(sw);
    assert ReorderFrom(cons, sw, 3) == Success(sw);
    assert ReorderFrom(cons, sw, 2) == Success(sw);
    assert ReorderFrom(cons, ch, 1) == Success(sw);
  }

  // ---------------------------------------------------------------------
  // Both parts together

  /** Some rule reads a|b. */
  predicate RuleFor(rules: seq<Rule>, a: Value, b: Value) {
    exists i :: 0 <= i < |rules| && Left(rules[i]) == a && Right(rules[i]) == b
  }

  lemma {:induction false} RightsOfRule(rules: seq<Rule>, a: Value, b: Value)
    requires b in RightsOf(rules, a)
    ensures RuleFor(rules, a, b)
    decreases |rules|
  {
    var init := rules[..|rules| - 1];
    if b in RightsOf(init, a) {
      RightsOfRule(init, a, b);
      var i :| 0 <= i < |init| && Left(init[i]) == a && Right(init[i]) == b;
      assert rules[i] == init[i];
    } else {
      assert Left(rules[|rules| - 1]) == a && Right(rules[|rules| - 1]) == b;
    }
  }

  /** No step of the reordering finds a pair to swap. */
  predicate NoSwap(cons: Consolidated, chapter: seq<Value>) {
    forall q, p :: 0 <= p < q < |chapter| && chapter[q] in cons ==> chapter[p] !in cons[chapter[q]]
  }

  lemma {:induction false} SwapFromNone(cons: Consolidated, chapter: seq<Value>, p1: nat, p2: nat)
    requires p2 <= p1 < |chapter| && chapter[p1] in cons && NoSwap(cons, chapter)
    ensures SwapFrom(cons, chapter, p1, p2) == Success(chapter)
    decreases p1 - p2
  {
    if p2 < p1 {
      SwapFromNone(cons, chapter, p1, p2 + 1);
    }
  }

  lemma {:induction false} ReorderNone(cons: Consolidated, chapter: seq<Value>, p1: nat)
    requires p1 <= |chapter| && NoSwap(cons, chapter)
    ensures ReorderFrom(cons, chapter, p1) == Success(chapter)
    decreases |chapter| - p1
  {
    if p1 < |chapter| {
      if chapter[p1] in cons {
        SwapFromNone(cons, chapter, p1, 0);
      }
      ReorderNone(cons, chapter, p1 + 1);
    }
  }

  /** In a chapter of distinct numbers a page is found where it is. */
  lemma IndexOfClean(chapter: seq<Value>, i: nat)
    requires Clean(chapter) && i < |chapter|
    ensures IndexOf(chapter, chapter[i]) == i
  {
    var k := IndexOf(chapter, chapter[i]);
    assert chapter[i] in chapter;
    assert forall a :: 0 <= a < k ==> chapter[..k][a] == chapter[a];
  }

  /** Part 2 leaves a correct chapter of distinct numbers as it is: a
      swap would mean a broken rule. */
  lemma CorrectUnchanged(rules: seq<Rule>, chapter: seq<Value>)
    requires Correct(rules, chapter) && Clean(chapter)
    ensures Reorder(Consolidate(rules), chapter) == Success(chapter)
  {
    var cons := Consolidate(rules);
    forall q, p | 0 <= p < q < |chapter| && chapter[q] in cons
      ensures chapter[p] !in cons[chapter[q]]
    {
      ListedBreaks(rules, chapter, p, q);
    }
    ReorderNone(cons, chapter, 0);
  }

  /** A page listed after a later page of a clean chapter breaks a rule. */
  lemma ListedBreaks(rules: seq<Rule>, chapter: seq<Value>, p: nat, q: nat)
    requires Clean(chapter) && p < q < |chapter|
    requires chapter[q] in Consolidate(rules)
    ensures chapter[p] in Consolidate(rules)[chapter[q]] ==> !Correct(rules, chapter)
  {
    var cons := Consolidate(rules);
    if chapter[p] in cons[chapter[q]] {
      RightsOfRule(rules, chapter[q], chapter[p]);
      var i :| 0 <= i < |rules| && Left(rules[i]) == chapter[q] && Right(rules[i]) == chapter[p];
      IndexOfClean(chapter, q);
      IndexOfClean(chapter, p);
      assert Broken(rules[i], chapter);
    }
  }

  /** The middle pages of all chapters after part 2's reordering. */
  function AllMiddles(cons: Consolidated, chapters: seq<seq<Value>>): (r: Result<Value, JsError>)
    decreases |chapters|
  {
    if |chapters| == 0 then Success(Num(0))
    else
      var rest := AllMiddles(cons, chapters[..|chapters| - 1]);
      var re := Reorder(cons, chapters[|chapters| - 1]);
      if rest.Failure? then rest
      else if re.Failure? then Failure(re.error)
      else Success(Plus(rest.value, Middle(re.value)))
  }

  /** A part-1 answer added to a part-2 result. */
  function Combine(a: Value, r: Result<Value, JsError>): Result<Value, JsError> {
    if r.Failure? then r else Success(Plus(a, r.value))
  }

  lemma PlusShuffle(a: Value, b: Value, c: Value)
    ensures Plus(Plus(a, b), c) == Plus(Plus(a, c), b) == Plus(a, Plus(b, c))
  {
  }

  /** Every chapter of distinct numbers is counted by exactly one part:
      the two answers add up to the middle pages of all chapters once
      reordered. */
  lemma {:induction false} PartsPartition(rules: seq<Rule>, chapters: seq<seq<Value>>)
    requires forall i :: 0 <= i < |chapters| ==> Clean(chapters[i])
    ensures AllMiddles(Consolidate(rules), chapters) == Combine(Part1(rules, chapters).answer, Part2Fixed(rules, Consolidate(rules), chapters))
    decreases |chapters|
  {
    if |chapters| > 0 {
      var init, ch := chapters[..|chapters| - 1], chapters[|chapters| - 1];
      PartsPartition(rules, init);
      var p1, p2 := Part1(rules, init).answer, Part2Fixed(rules, Consolidate(rules), init);
      if IsChapterCorrect(rules, ch) {
        CorrectUnchanged(rules, ch);
        if p2.Success? {
          PlusShuffle(p1, p2.value, Middle(ch));
        }
      } else if p2.Success? {
        var re := Reorder(Consolidate(rules), ch);
        if re.Success? {
          PlusShuffle(p1, p2.value, Middle(re.value));
        }
      }
    }
  }

  /** Both answers: part 1 over the correct chapters, part 2 over the
      incorrect ones once reordered. Part 2 is the corrected one; it is what
      the script computes whenever no two chapters share a memo key. */
  datatype Answers = Answers(part1: Value, part2: Result<Value, JsError>)

  function Solve(input: string): (r: Answers)
    ensures var data := ParseInput(input);
      r.part1 == Part1(data.rules, data.chapters).answer
    ensures var data := ParseInput(input);
      (forall i :: 0 <= i < |data.chapters| ==> Clean(data.chapters[i])) ==>
        Combine(r.part1, r.part2) == AllMiddles(Consolidate(data.rules), data.chapters)
    ensures var data := ParseInput(input);
      KeysDistinct(data.chapters) ==>
        r.part2 == Part2(Consolidate(data.rules), data.chapters, Part1(data.rules, data.chapters).memo)
  {
    SolveParsed(ParseInput(input))
  }

  /** Both answers for parsed rules and chapters. */
  function SolveParsed(data: Input): (r: Answers)
    ensures r.part1 == Part1(data.rules, data.chapters).answer
    ensures (forall i :: 0 <= i < |data.chapters| ==> Clean(data.chapters[i])) ==>
      Combine(r.part1, r.part2) == AllMiddles(Consolidate(data.rules), data.chapters)
    ensures KeysDistinct(data.chapters) ==>
      r.part2 == Part2(Consolidate(data.rules), data.chapters, Part1(data.rules, data.chapters).memo)
  {
    PartsPartitionIf(data.rules, data.chapters);
    Part2AsIntendedIf(data.rules, data.chapters);
    Answers(Part1(data.rules, data.chapters).answer, Part2Fixed(data.rules, Consolidate(data.rules), data.chapters))
  }

  lemma PartsPartitionIf(rules: seq<Rule>, chapters: seq<seq<Value>>)
    ensures (forall i :: 0 <= i < |chapters| ==> Clean(chapters[i])) ==>
      AllMiddles(Consolidate(rules), chapters) == Combine(Part1(rules, chapters).answer, Part2Fixed(rules, Consolidate(rules), chapters))
  {
    if forall i :: 0 <= i < |chapters| ==> Clean(chapters[i]) {
      PartsPartition(rules, chapters);
    }
  }

  lemma Part2AsIntendedIf(rules: seq<Rule>, chapters: seq<seq<Value>>)
    ensures KeysDistinct(chapters) ==>
      Part2(Consolidate(rules), chapters, Part1(rules, chapters).memo) == Part2Fixed(rules, Consolidate(rules), chapters)
  {
    if KeysDistinct(chapters) {
      Part2AsIntended(rules, chapters);
    }
  }
}
