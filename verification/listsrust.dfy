/** Day 1 in Rust (rust/day_1/src/main.rs): the same two columns of
    location ids, read as 32-bit integers. Text that is no `i32`, a line
    with one id, and every arithmetic overflow stop the program (a panic,
    as a debug build checks `+`, `-`, `*` and `abs`) where the JavaScript
    version carries on with NaN. */
module ListsRust {
  import opened Wrappers
  import opened Decimal
  import opened Text
  import opened Sorting
  import opened ListDistance

  /** Why the program stops: `unwrap` on a failed `parse`, an index past the
      end of a vector, or an `i32` overflow. */
  datatype Panic = ParseIntError | IndexOutOfBounds | Overflow

  /** One line of the input: `(pair[0], pair[1])`. */
  datatype Pair = Pair(left: int, right: int)

  /** Both answers. */
  datatype Answer = Answer(part1: int, part2: int)

  const I32Min: int := -0x8000_0000
  const I32Max: int := 0x7fff_ffff

  predicate IsI32(x: int) {
    I32Min <= x <= I32Max
  }

  predicate AllI32(xs: seq<int>) {
    forall i :: 0 <= i < |xs| ==> IsI32(xs[i])
  }

  // ---------------------------------------------------------------------
  // Reading the input

  /** `str::parse::<i32>`: an optional sign, at least one ASCII digit and
      nothing else, with the value in range. */
  function ParseI32(s: string): (r: Option<int>)
    ensures r.Some? ==> IsI32(r.value)
  {
    if |s| > 0 && (s[0] == '+' || s[0] == '-') then
      var d := s[1..];
      if |d| > 0 && AllDigits(d) then
        var v: int := if s[0] == '-' then -(DigitValue(d) as int) else DigitValue(d);
        if IsI32(v) then Some(v) else None
      else None
    else if |s| > 0 && AllDigits(s) && IsI32(DigitValue(s)) then Some(DigitValue(s))
    else None
  }

  /** Unlike `Number`, `parse` accepts no blank: the empty text and text
      with a space are errors. */
  lemma ParseRejectsBlank(s: string)
    requires s == "" || ' ' in s
    ensures ParseI32(s) == None
  {
    if s != "" {
      if AllDigits(s) {
        DigitsFree(s, ' ');
      }
      if |s[1..]| > 0 && AllDigits(s[1..]) {
        DigitsFree(s[1..], ' ');
        assert s == [s[0]] + s[1..];
      }
    }
  }

  /** `parse` reads back the decimal text of every `i32`. */
  lemma ParseIntText(x: int)
    requires IsI32(x)
    ensures ParseI32(IntText(x)) == Some(x)
  {
    if x < 0 {
      ParseNegative(DecimalString(-x), -x);
    } else {
      ParsePositive(DecimalString(x), x);
    }
  }

  lemma ParsePositive(d: string, n: nat)
    requires d == DecimalString(n) && n <= I32Max
    ensures ParseI32(d) == Some(n)
  {
    assert IsDigit(d[0]);
    DigitValueOfDecimalString(n);
  }

  lemma ParseNegative(d: string, n: nat)
    requires d == DecimalString(n) && n <= -I32Min
    ensures ParseI32("-" + d) == Some(-(n as int))
  {
    assert ("-" + d)[1..] == d;
    DigitValueOfDecimalString(n);
  }

  /** The decimal text of an integer holds only digits and `-`. */
  lemma IntTextFree(x: int, c: char)
    requires c != '-' && !IsDigit(c)
    ensures c !in IntText(x)
  {
    if x < 0 {
      DigitsFree(DecimalString(-x), c);
      assert IntText(x) == "-" + DecimalString(-x);
    } else {
      DigitsFree(DecimalString(x), c);
    }
  }

  /** Where sep first occurs in s, if it does. */
  function FindSep(s: string, sep: string): (r: Option<nat>)
    requires |sep| > 0
    ensures r.Some? ==> r.value + |sep| <= |s| && s[r.value..r.value + |sep|] == sep
    decreases |s|
  {
    if |s| < |sep| then None
    else if s[..|sep|] == sep then Some(0)
    else
      match FindSep(s[1..], sep)
      case None => None
      case Some(k) =>
        assert s[k + 1..k + 1 + |sep|] == s[1..][k..k + |sep|];
        Some(k + 1)
  }

  /** A text without the separator's first character holds no separator. */
  lemma {:induction false} FindSepNone(s: string, sep: string)
    requires |sep| > 0 && sep[0] !in s
    ensures FindSep(s, sep) == None
    decreases |s|
  {
    if |s| >= |sep| {
      assert s[..|sep|][0] == s[0];
      FindSepNone(s[1..], sep);
    }
  }

  /** After a stretch without the separator's first character, the first
      separator is the one that follows it. */
  lemma {:induction false} FindSepAfter(a: string, rest: string, sep: string)
    requires |sep| > 0 && sep[0] !in a && |sep| <= |rest| && rest[..|sep|] == sep
    ensures FindSep(a + rest, sep) == Some(|a|)
    decreases |a|
  {
    var s := a + rest;
    if |a| == 0 {
      assert s == rest;
    } else {
      assert s[..|sep|][0] == a[0];
      assert s[1..] == a[1..] + rest;
      FindSepAfter(a[1..], rest, sep);
    }
  }

  /** `str::split` with a text pattern: the pieces between the
      non-overlapping occurrences of sep, found left to right. */
  function SplitStr(s: string, sep: string): (r: seq<string>)
    requires |sep| > 0
    ensures |r| >= 1
    decreases |s|
  {
    match FindSep(s, sep)
    case None => [s]
    case Some(k) => [s[..k]] + SplitStr(s[k + |sep|..], sep)
  }

  /** The pieces with sep between them. */
  function JoinStr(pieces: seq<string>, sep: string): string
    requires |pieces| >= 1
  {
    if |pieces| == 1 then pieces[0] else pieces[0] + sep + JoinStr(pieces[1..], sep)
  }

  /** Splitting loses nothing: the pieces joined by the separator give the
      text back. */
  lemma {:induction false} JoinSplitStr(s: string, sep: string)
    requires |sep| > 0
    ensures JoinStr(SplitStr(s, sep), sep) == s
    decreases |s|
  {
    match FindSep(s, sep)
    case None =>
    case Some(k) =>
      var pieces := SplitStr(s, sep);
      JoinSplitStr(s[k + |sep|..], sep);
      assert pieces[1..] == SplitStr(s[k + |sep|..], sep);
      assert s == s[..k] + s[k..k + |sep|] + s[k + |sep|..];
  }

  /** Two space-free words three spaces apart split into the two words. */
  lemma SplitPair(a: string, b: string)
    requires ' ' !in a && ' ' !in b
    ensures SplitStr(a + "   " + b, "   ") == [a, b]
  {
    var sep := "   ";
    var s := a + sep + b;
    assert s == a + (sep + b);
    assert (sep + b)[..3] == sep;
    FindSepAfter(a, sep + b, sep);
    assert s[..|a|] == a && s[|a| + 3..] == b;
    FindSepNone(b, sep);
  }

  /** Parse every piece (`collect` of the `unwrap`s); None when one fails. */
  function ParseAll(pieces: seq<string>): (r: Option<seq<int>>)
    ensures r.Some? ==> |r.value| == |pieces|
    ensures r.Some? ==> forall i :: 0 <= i < |pieces| ==> ParseI32(pieces[i]) == Some(r.value[i])
  {
    if |pieces| == 0 then Some([])
    else
      match ParseI32(pieces[0])
      case None => None
      case Some(v) =>
        var rest := ParseAll(pieces[1..]);
        if rest.None? then None
        else
          assert forall i :: 1 <= i < |pieces| ==> pieces[i] == pieces[1..][i - 1];
          Some([v] + rest.value)
  }

  /** The collection fails exactly when some piece is no `i32`. */
  lemma {:induction false} ParseAllFails(pieces: seq<string>)
    ensures ParseAll(pieces).None? <==> exists i :: 0 <= i < |pieces| && ParseI32(pieces[i]).None?
  {
    if |pieces| > 0 && ParseI32(pieces[0]).Some? {
      ParseAllFails(pieces[1..]);
      if ParseAll(pieces[1..]).None? {
        var i :| 0 <= i < |pieces| - 1 && ParseI32(pieces[1..][i]).None?;
        assert ParseI32(pieces[i + 1]).None?;
      } else {
        forall i | 0 <= i < |pieces|
          ensures ParseI32(pieces[i]).Some?
        {
          if i > 0 {
            assert pieces[i] == pieces[1..][i - 1];
          }
        }
      }
    }
  }

  /** One line: `line.split("   ")`, every piece parsed, then `pair[1]`. */
  function ReadLine(line: string): (r: Result<Pair, Panic>)
    ensures r.Success? ==> IsI32(r.value.left) && IsI32(r.value.right)
  {
    match ParseAll(SplitStr(line, "   "))
    case None => Failure(ParseIntError)
    case Some(vs) => if |vs| < 2 then Failure(IndexOutOfBounds) else Success(Pair(vs[0], vs[1]))
  }

  /** The lines in order; the first that fails stops the program. */
  function ReadLines(lines: seq<string>): (r: Result<seq<Pair>, Panic>)
    ensures r.Success? ==> |r.value| == |lines|
    ensures r.Success? ==> forall i :: 0 <= i < |lines| ==> ReadLine(lines[i]) == Success(r.value[i])
  {
    if |lines| == 0 then Success([])
    else
      match ReadLine(lines[0])
      case Failure(e) => Failure(e)
      case Success(p) =>
        match ReadLines(lines[1..])
        case Failure(e) => Failure(e)
        case Success(ps) =>
          assert forall i :: 1 <= i < |lines| ==> lines[i] == lines[1..][i - 1];
          Success([p] + ps)
  }

  /** `contents.split("\n")`, then every line. */
  function ReadInput(contents: string): Result<seq<Pair>, Panic> {
    ReadLines(Split(contents, '\n'))
  }

  function LineText(p: Pair): string {
    IntText(p.left) + "   " + IntText(p.right)
  }

  /** The puzzle text: one line per pair, no line break at the end. */
  function Render(pairs: seq<Pair>): string {
    Join(seq(|pairs|, i requires 0 <= i < |pairs| => LineText(pairs[i])), '\n')
  }

  predicate PairI32(p: Pair) {
    IsI32(p.left) && IsI32(p.right)
  }

  lemma ReadLineText(p: Pair)
    requires PairI32(p)
    ensures ReadLine(LineText(p)) == Success(p)
  {
    IntTextFree(p.left, ' ');
    IntTextFree(p.right, ' ');
    SplitPair(IntText(p.left), IntText(p.right));
    ParseIntText(p.left);
    ParseIntText(p.right);
    ParseTwo(IntText(p.left), IntText(p.right), p.left, p.right);
  }

  lemma ParseTwo(a: string, b: string, x: int, y: int)
    requires ParseI32(a) == Some(x) && ParseI32(b) == Some(y)
    ensures ParseAll([a, b]) == Some([x, y])
  {
    assert [a, b][1..] == [b] && [b][1..] == [];
    assert [y] + [] == [y] && [x] + [y] == [x, y];
    assert ParseAll([]) == Some([]);
    assert ParseAll([b]) == Some([y]);
  }

  lemma LineTextFree(p: Pair)
    ensures '\n' !in LineText(p)
  {
    IntTextFree(p.left, '\n');
    IntTextFree(p.right, '\n');
  }

  lemma {:induction false} ReadLinesEach(lines: seq<string>, ps: seq<Pair>)
    requires |lines| == |ps|
    requires forall i :: 0 <= i < |lines| ==> ReadLine(lines[i]) == Success(ps[i])
    ensures ReadLines(lines) == Success(ps)
  {
    if |lines| > 0 {
      forall i | 0 <= i < |lines| - 1
        ensures ReadLine(lines[1..][i]) == Success(ps[1..][i])
      {
        assert lines[1..][i] == lines[i + 1];
      }
      ReadLinesEach(lines[1..], ps[1..]);
      ReadLinesCons(lines, ps[0], ps[1..]);
      assert ps == [ps[0]] + ps[1..];
    }
  }

  /** A first line read, then the rest read, reads the whole. */
  lemma ReadLinesCons(lines: seq<string>, p: Pair, rest: seq<Pair>)
    requires |lines| > 0 && ReadLine(lines[0]) == Success(p)
    requires ReadLines(lines[1..]) == Success(rest)
    ensures ReadLines(lines) == Success([p] + rest)
  {
  }

  /** Reading a rendered list of `i32` pairs gives the pairs back. */
  lemma ReadRender(pairs: seq<Pair>)
    requires |pairs| >= 1 && forall i :: 0 <= i < |pairs| ==> PairI32(pairs[i])
    ensures ReadInput(Render(pairs)) == Success(pairs)
  {
    var lines := seq(|pairs|, i requires 0 <= i < |pairs| => LineText(pairs[i]));
    forall i | 0 <= i < |lines|
      ensures '\n' !in lines[i] && ReadLine(lines[i]) == Success(pairs[i])
    {
      LineTextFree(pairs[i]);
      ReadLineText(pairs[i]);
    }
    SplitJoin(lines, '\n');
    ReadLinesEach(lines, pairs);
  }

  /** A line that fails anywhere makes the whole reading fail. */
  lemma {:induction false} ReadLinesFail(lines: seq<string>, k: nat)
    requires k < |lines| && ReadLine(lines[k]).Failure?
    ensures ReadLines(lines).Failure?
  {
    if k > 0 && ReadLine(lines[0]).Success? {
      assert lines[1..][k - 1] == lines[k];
      ReadLinesFail(lines[1..], k - 1);
    }
  }

  /** A trailing line break leaves an empty last line, which `parse`
      rejects: the program panics. */
  lemma TrailingNewline(contents: string)
    ensures ReadInput(contents + "\n").Failure?
  {
    SplitTrailing(contents, '\n');
    var lines := Split(contents + "\n", '\n');
    assert lines[|lines| - 1] == "";
    FindSepNone("", "   ");
    assert SplitStr("", "   ") == [""];
    ParseRejectsBlank("");
    ReadLinesFail(lines, |lines| - 1);
  }

  function Lefts(ps: seq<Pair>): (r: seq<int>)
    ensures |r| == |ps|
  {
    seq(|ps|, i requires 0 <= i < |ps| => ps[i].left)
  }

  function Rights(ps: seq<Pair>): (r: seq<int>)
    ensures |r| == |ps|
  {
    seq(|ps|, i requires 0 <= i < |ps| => ps[i].right)
  }

  // ---------------------------------------------------------------------
  // Part 1

  /** The loop of `part1` from position i on, with the running distance:
      `left[i] - right[i]`, its `abs()` and the sum are each checked. */
  function Part1From(l: seq<int>, r: seq<int>, i: nat, acc: int): Result<int, Panic>
    requires i <= |l|
    decreases |l| - i
  {
    if i == |l| then Success(acc)
    else if i >= |r| then Failure(IndexOutOfBounds)
    else
      var diff := l[i] - r[i];
      if !IsI32(diff) || diff == I32Min then Failure(Overflow)
      else if !IsI32(acc + Abs(diff)) then Failure(Overflow)
      else Part1From(l, r, i + 1, acc + Abs(diff))
  }

  /** `part1`: both vectors sorted, then the loop. */
  function Part1(left: seq<int>, right: seq<int>): Result<int, Panic> {
    Part1From(SortBy(left, Id), SortBy(right, Id), 0, 0)
  }

  /** From any point that has not overflowed, the loop finishes with the
      distance, or overflows exactly when the distance is no `i32`. */
  lemma {:induction false} Part1FromDistance(l: seq<int>, r: seq<int>, i: nat)
    requires |l| == |r| && i <= |l| && AllI32(l) && AllI32(r)
    requires Distance(l[..i], r[..i]) <= I32Max
    ensures Part1From(l, r, i, Distance(l[..i], r[..i]))
         == if Distance(l, r) <= I32Max then Success(Distance(l, r)) else Failure(Overflow)
    decreases |l| - i
  {
    DistancePrefix(l, r, i);
    if i == |l| {
      assert l[..i] == l && r[..i] == r;
    } else {
      DistancePrefix(l, r, i + 1);
      DistanceStep(l, r, i);
      if Distance(l[..i + 1], r[..i + 1]) <= I32Max {
        Part1FromDistance(l, r, i + 1);
      }
    }
  }

  /** Sorting keeps the elements, so it keeps them `i32`. */
  lemma SortedI32(xs: seq<int>)
    requires AllI32(xs)
    ensures AllI32(SortBy(xs, Id))
  {
    var s := SortBy(xs, Id);
    forall i | 0 <= i < |s|
      ensures IsI32(s[i])
    {
      assert s[i] in multiset(xs);
    }
  }

  /** `part1` is the total distance, or an overflow panic exactly when that
      distance is beyond `i32::MAX`. */
  lemma Part1Value(left: seq<int>, right: seq<int>)
    requires |left| == |right| && AllI32(left) && AllI32(right)
    ensures Part1(left, right)
         == if SortedDistance(left, right) <= I32Max then Success(SortedDistance(left, right)) else Failure(Overflow)
  {
    SortedI32(left);
    SortedI32(right);
    var l, r := SortBy(left, Id), SortBy(right, Id);
    assert l[..0] == [] && r[..0] == [];
    Part1FromDistance(l, r, 0);
  }

  /** `part1` gives the same on swapped arguments. */
  lemma Part1Symmetric(left: seq<int>, right: seq<int>)
    requires |left| == |right| && AllI32(left) && AllI32(right)
    ensures Part1(left, right) == Part1(right, left)
  {
    Part1Value(left, right);
    Part1Value(right, left);
    SortedDistanceSymmetric(left, right);
  }

  /** `part1` depends only on which numbers each vector holds. */
  lemma Part1OrderFree(left: seq<int>, right: seq<int>, left2: seq<int>, right2: seq<int>)
    requires multiset(left2) == multiset(left) && multiset(right2) == multiset(right)
    ensures Part1(left2, right2) == Part1(left, right)
  {
    SortSettles(left, left2);
    SortSettles(right, right2);
  }

  lemma {:induction false} Part1FromShort(l: seq<int>, r: seq<int>, i: nat, acc: int)
    requires |r| < |l| && i <= |r|
    ensures Part1From(l, r, i, acc).Failure?
    decreases |r| - i
  {
    if i < |r| {
      var diff := l[i] - r[i];
      if IsI32(diff) && diff != I32Min && IsI32(acc + Abs(diff)) {
        Part1FromShort(l, r, i + 1, acc + Abs(diff));
      }
    }
  }

  /** A right vector shorter than the left one stops `part1` (at
      `right[i]`, unless an overflow comes first). */
  lemma Part1Short(left: seq<int>, right: seq<int>)
    requires |right| < |left|
    ensures Part1(left, right).Failure?
  {
    Part1FromShort(SortBy(left, Id), SortBy(right, Id), 0, 0);
  }

  // ---------------------------------------------------------------------
  // Part 2

  /** The hash map of counts: `entry(pair[1]).or_insert(0) += 1` for every
      line in turn. */
  function Tally(rs: seq<int>): (m: map<int, int>)
    ensures forall x :: x in m <==> x in rs
    ensures forall x :: x in m ==> m[x] == multiset(rs)[x]
  {
    if |rs| == 0 then map[]
    else
      var init := Tally(rs[..|rs| - 1]);
      var x := rs[|rs| - 1];
      assert rs == rs[..|rs| - 1] + [x];
      init[x := (if x in init then init[x] else 0) + 1]
  }

  /** `hashmap.get(&num).unwrap_or(&0)`. */
  function Lookup(m: map<int, int>, x: int): int {
    if x in m then m[x] else 0
  }

  /** Looking up a tally gives how often the number occurs. */
  lemma LookupTally(rs: seq<int>, x: int)
    ensures Lookup(Tally(rs), x) == multiset(rs)[x]
  {
  }

  /** Two vectors with the same numbers give the same map. */
  lemma TallyOrderFree(rs: seq<int>, rs2: seq<int>)
    requires multiset(rs2) == multiset(rs)
    ensures Tally(rs2) == Tally(rs)
  {
    forall x
      ensures x in rs2 <==> x in rs
    {
      assert x in rs2 <==> x in multiset(rs2);
    }
  }

  /** The loop of `part2` from position i on: the product and the sum are
      each checked. */
  function Part2From(left: seq<int>, m: map<int, int>, i: nat, acc: int): Result<int, Panic>
    requires i <= |left|
    decreases |left| - i
  {
    if i == |left| then Success(acc)
    else
      var p := Lookup(m, left[i]) * left[i];
      if !IsI32(p) || !IsI32(acc + p) then Failure(Overflow)
      else Part2From(left, m, i + 1, acc + p)
  }

  function Part2(left: seq<int>, m: map<int, int>): Result<int, Panic> {
    Part2From(left, m, 0, 0)
  }

  /** The score: each left number times its count in the map. */
  function Score(xs: seq<int>, m: map<int, int>): int {
    if |xs| == 0 then 0
    else Score(xs[..|xs| - 1], m) + Lookup(m, xs[|xs| - 1]) * xs[|xs| - 1]
  }

  /** No product and no running sum on the way leaves `i32`. */
  predicate Fits(xs: seq<int>, m: map<int, int>) {
    |xs| == 0 ||
    (var n := |xs| - 1;
     var p := Lookup(m, xs[n]) * xs[n];
     Fits(xs[..n], m) && IsI32(p) && IsI32(Score(xs[..n], m) + p))
  }

  /** Fitting is closed under prefixes. */
  lemma {:induction false} FitsPrefix(xs: seq<int>, m: map<int, int>, j: nat)
    requires j <= |xs| && Fits(xs, m)
    ensures Fits(xs[..j], m)
  {
    if j < |xs| {
      var n := |xs| - 1;
      FitsPrefix(xs[..n], m, j);
      assert xs[..n][..j] == xs[..j];
    } else {
      assert xs[..j] == xs;
    }
  }

  lemma {:induction false} Part2FromScore(left: seq<int>, m: map<int, int>, i: nat)
    requires i <= |left| && Fits(left[..i], m)
    ensures Part2From(left, m, i, Score(left[..i], m))
         == if Fits(left, m) then Success(Score(left, m)) else Failure(Overflow)
    decreases |left| - i
  {
    if i == |left| {
      assert left[..i] == left;
    } else {
      var next := left[..i + 1];
      assert next[..i] == left[..i] && next[i] == left[i];
      if Fits(next, m) {
        Part2FromScore(left, m, i + 1);
      } else if Fits(left, m) {
        FitsPrefix(left, m, i + 1);
      }
    }
  }

  /** `part2` is the score, or an overflow panic exactly when a product or
      a running sum leaves `i32`. */
  lemma Part2Value(left: seq<int>, m: map<int, int>)
    ensures Part2(left, m) == if Fits(left, m) then Success(Score(left, m)) else Failure(Overflow)
    ensures |left| == 0 ==> Part2(left, m) == Success(0)
  {
    assert left[..0] == [];
    Part2FromScore(left, m, 0);
  }

  /** The size of the score: every term taken positive. */
  function Mass(xs: seq<int>, m: map<int, int>): nat {
    if |xs| == 0 then 0
    else Mass(xs[..|xs| - 1], m) + Abs(Lookup(m, xs[|xs| - 1]) * xs[|xs| - 1])
  }

  /** When the terms taken positive add up to an `i32`, nothing overflows. */
  lemma {:induction false} SmallFits(xs: seq<int>, m: map<int, int>)
    requires Mass(xs, m) <= I32Max
    ensures Fits(xs, m) && -(Mass(xs, m) as int) <= Score(xs, m) <= Mass(xs, m)
  {
    if |xs| > 0 {
      SmallFits(xs[..|xs| - 1], m);
    }
  }

  /** With the tally of the right vector the score counts, for every left
      number, its occurrences on the right. */
  lemma {:induction false} ScoreOfTally(left: seq<int>, right: seq<int>)
    ensures Score(left, Tally(right)) == CountScore(left, right)
  {
    if |left| > 0 {
      ScoreOfTally(left[..|left| - 1], right);
      LookupTally(right, left[|left| - 1]);
    }
  }

  /** The similarity score read off the right vector directly. */
  function CountScore(left: seq<int>, right: seq<int>): int {
    if |left| == 0 then 0
    else CountScore(left[..|left| - 1], right) + multiset(right)[left[|left| - 1]] * left[|left| - 1]
  }

  // ---------------------------------------------------------------------
  // The whole program

  /** `main` without the timing and printing: read, tally, part 1, then
      part 2; the first panic ends it. */
  function Solve(contents: string): (r: Result<Answer, Panic>)
    ensures r.Success? ==> ReadInput(contents).Success?
    ensures ReadInput(contents).Failure? ==> r == Failure(ReadInput(contents).error)
    ensures ReadInput(contents).Success? ==>
      var ps := ReadInput(contents).value;
      var left, right := Lefts(ps), Rights(ps);
      r == if SortedDistance(left, right) > I32Max then Failure(Overflow)
           else if !Fits(left, Tally(right)) then Failure(Overflow)
           else Success(Answer(SortedDistance(left, right), CountScore(left, right)))
  {
    match ReadInput(contents)
    case Failure(e) => Failure(e)
    case Success(ps) =>
      var left, right := Lefts(ps), Rights(ps);
      SolveLemma(ps);
      match Part1(left, right)
      case Failure(e) => Failure(e)
      case Success(a) =>
        match Part2(left, Tally(right))
        case Failure(e) => Failure(e)
        case Success(b) => Success(Answer(a, b))
  }

  lemma SolveLemma(ps: seq<Pair>)
    requires forall i :: 0 <= i < |ps| ==> PairI32(ps[i])
    ensures Part1(Lefts(ps), Rights(ps))
         == if SortedDistance(Lefts(ps), Rights(ps)) <= I32Max then Success(SortedDistance(Lefts(ps), Rights(ps)))
            else Failure(Overflow)
    ensures Part2(Lefts(ps), Tally(Rights(ps)))
         == if Fits(Lefts(ps), Tally(Rights(ps))) then Success(CountScore(Lefts(ps), Rights(ps))) else Failure(Overflow)
  {
    Part1Value(Lefts(ps), Rights(ps));
    Part2Value(Lefts(ps), Tally(Rights(ps)));
    ScoreOfTally(Lefts(ps), Rights(ps));
  }
}
