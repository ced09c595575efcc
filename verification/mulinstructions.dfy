/** Corrupted memory (day_3/index.js): the instructions `mul(a,b)`, `do()`
    and `don't()` are picked out of the text by a global regular
    expression; part 1 adds up every product, part 2 only those while the
    latest toggle is not `don't()`. */
module MulInstructions {
  import opened Wrappers
  import opened Decimal

  /** A match of the regular expression: `do()`, `don't()`, or the pair
      `[parseInt(a), parseInt(b)]` of a `mul`. */
  datatype Token = Do | Dont | Mul(a: nat, b: nat)

  /** A match: what was found and how many characters it spans. */
  datatype Found = Found(token: Token, len: nat)

  /** A number read from the text and the characters it took. */
  datatype Read = Read(value: nat, len: nat)

  // ---------------------------------------------------------------------
  // parseInput, as a scanner

  /** The length of the run of digits at the start of s. */
  function DigitRun(s: string): (n: nat)
    ensures n <= |s| && AllDigits(s[..n]) && (n == |s| || !IsDigit(s[n]))
  {
    if |s| > 0 && IsDigit(s[0]) then
      var n := 1 + DigitRun(s[1..]);
      assert s[..n] == [s[0]] + s[1..][..n - 1];
      n
    else 0
  }

  /** A number of the expression, `[0-9]+`, and the character that must
      follow it: the value and the length read, `stop` included. The run
      of digits is the longest one, since a shorter run leaves a digit
      where `stop` must stand. */
  function Operand(t: string, stop: char): (r: Option<Read>)
    ensures r.Some? ==> 2 <= r.value.len <= |t| && t[r.value.len - 1] == stop
  {
    var n := DigitRun(t);
    if n >= 1 && n < |t| && t[n] == stop then Some(Read(DigitValue(t[..n]), n + 1)) else None
  }

  /** `mul[(]{1}[0-9]+,[0-9]+[)]{1}` at the start of s: the token and the
      length of the match. */
  function MulAt(s: string): (r: Option<Found>)
    ensures r.Some? ==> 8 <= r.value.len <= |s| && r.value.token.Mul?
  {
    if |s| >= 4 && s[..4] == "mul(" then
      match Operand(s[4..], ',')
      case None => None
      case Some(x) =>
        match Operand(s[4 + x.len..], ')')
        case None => None
        case Some(y) => Some(Found(Mul(x.value, y.value), 4 + x.len + y.len))
    else None
  }

  /** The alternatives of the expression tried at the start of s. */
  function MatchAt(s: string): (r: Option<Found>)
    ensures r.Some? ==> 1 <= r.value.len <= |s|
    ensures r.Some? ==> s[0] == 'm' || s[0] == 'd'
  {
    if MulAt(s).Some? then MulAt(s)
    else if |s| >= 4 && s[..4] == "do()" then Some(Found(Do, 4))
    else if |s| >= 7 && s[..7] == "don't()" then Some(Found(Dont, 7))
    else None
  }

  /** `input.match(regex)` with the `g` flag: the leftmost match, then the
      search goes on after it. */
  function Scan(s: string): seq<Token>
    decreases |s|
  {
    if |s| == 0 then []
    else
      match MatchAt(s)
      case Some(m) => [m.token] + Scan(s[m.len..])
      case None => Scan(s[1..])
  }

  /** `parseInput`: without any match `match` answers null, and calling
      `map` on it is a TypeError. */
  function ParseInput(input: string): (r: Result<seq<Token>, JsError>)
    ensures r.Failure? <==> Scan(input) == []
    ensures r.Failure? ==> r.error == TypeError
    ensures r.Success? ==> r.value == Scan(input)
  {
    var found := Scan(input);
    if found == [] then Failure(TypeError) else Success(found)
  }

  /** How each token is written. */
  function TokenText(t: Token): string {
    match t
    case Do => "do()"
    case Dont => "don't()"
    case Mul(a, b) => "mul(" + DecimalString(a) + "," + DecimalString(b) + ")"
  }

  /** Tokens written one after another. */
  function Render(ts: seq<Token>): string {
    if |ts| == 0 then "" else TokenText(ts[0]) + Render(ts[1..])
  }

  /** The scan finds a written token at the start of the text, whatever
      follows it. */
  lemma MatchText(t: Token, rest: string)
    ensures MatchAt(TokenText(t) + rest) == Some(Found(t, |TokenText(t)|))
  {
    var s := TokenText(t) + rest;
    match t
    case Do =>
      assert s[..4] == "do()";
    case Dont =>
      assert s[..7] == "don't()";
      assert s[..4] != "mul(" && s[..4] != "do()" by {
        assert s[..4][1] == 'o';
        assert s[..4][2] == 'n';
      }
    case Mul(a, b) =>
      MulText(a, b, rest);
  }

  lemma MulText(a: nat, b: nat, rest: string)
    ensures MulAt(TokenText(Mul(a, b)) + rest) == Some(Found(Mul(a, b), |TokenText(Mul(a, b))|))
  {
    var da, db := DecimalString(a), DecimalString(b);
    Regroup("mul(", da, ",", db, ")", rest);
    ValueOfText(a, da);
    ValueOfText(b, db);
    MulShape(TokenText(Mul(a, b)) + rest, da, db, rest, a, b, |TokenText(Mul(a, b))|);
  }

  lemma ValueOfText(n: nat, d: string)
    requires d == DecimalString(n)
    ensures AllDigits(d) && |d| >= 1 && DigitValue(d) == n
  {
    DigitValueOfDecimalString(n);
  }

  /** `mul(`, two digit runs around a comma, `)`: one match, whatever
      follows. */
  lemma MulShape(s: string, da: string, db: string, rest: string, a: nat, b: nat, n: nat)
    requires AllDigits(da) && AllDigits(db) && |da| >= 1 && |db| >= 1
    requires a == DigitValue(da) && b == DigitValue(db) && n == |da| + |db| + 6
    requires s == "mul(" + (da + ("," + (db + (")" + rest))))
    ensures MulAt(s) == Some(Found(Mul(a, b), n))
  {
    FirstOperand(s, da, db + (")" + rest));
    OperandOf(db, ')', ")" + rest);
    MulAtOf(s, a, |da| + 1, b, |db| + 1, n);
  }

  /** `mul(` and the first operand, up to its comma. */
  lemma FirstOperand(s: string, da: string, tail: string)
    requires AllDigits(da) && |da| >= 1
    requires s == "mul(" + (da + ("," + tail))
    ensures |s| >= 4 && s[..4] == "mul(" && Operand(s[4..], ',') == Some(Read(DigitValue(da), |da| + 1))
    ensures 4 + (|da| + 1) <= |s| && s[4 + (|da| + 1)..] == tail
  {
    Behind("mul(", da + ("," + tail));
    OperandOf(da, ',', "," + tail);
    Regroup4("mul(", da, ",", tail);
    Behind("mul(" + da + ",", tail);
  }

  /** MulAt from its two operands. */
  lemma MulAtOf(s: string, a: nat, la: nat, b: nat, lb: nat, n: nat)
    requires |s| >= 4 && s[..4] == "mul(" && Operand(s[4..], ',') == Some(Read(a, la))
    requires 4 + la <= |s| && Operand(s[4 + la..], ')') == Some(Read(b, lb))
    requires n == 4 + la + lb
    ensures MulAt(s) == Some(Found(Mul(a, b), n))
  {
  }

  lemma Behind<T>(a: seq<T>, b: seq<T>)
    ensures |a + b| >= |a| && (a + b)[..|a|] == a && (a + b)[|a|..] == b
  {
  }

  lemma Regroup4<T>(a: seq<T>, b: seq<T>, c: seq<T>, d: seq<T>)
    ensures a + (b + (c + d)) == a + b + c + d
  {
  }

  lemma Regroup<T>(a: seq<T>, b: seq<T>, c: seq<T>, d: seq<T>, e: seq<T>, f: seq<T>)
    ensures a + b + c + d + e + f == a + (b + (c + (d + (e + f))))
  {
  }

  /** Digits, then the expected character: read in one piece. */
  lemma OperandOf(d: string, stop: char, rest: string)
    requires AllDigits(d) && |d| >= 1 && !IsDigit(stop) && |rest| > 0 && rest[0] == stop
    ensures Operand(d + rest, stop) == Some(Read(DigitValue(d), |d| + 1))
  {
    RunOf(d, rest);
    assert (d + rest)[..|d|] == d;
  }

  /** A digit run ends at the first character that is not a digit. */
  lemma RunOf(d: string, rest: string)
    requires AllDigits(d) && |rest| > 0 && !IsDigit(rest[0])
    ensures DigitRun(d + rest) == |d|
    decreases |d|
  {
    if |d| > 0 {
      assert (d + rest)[1..] == d[1..] + rest;
      RunOf(d[1..], rest);
    }
  }

  /** Scanning written tokens gives them back. */
  lemma {:induction false} ScanRender(ts: seq<Token>)
    ensures Scan(Render(ts)) == ts
  {
    if |ts| > 0 {
      var s := Render(ts);
      var n := |TokenText(ts[0])|;
      MatchText(ts[0], Render(ts[1..]));
      assert s[n..] == Render(ts[1..]);
      ScanRender(ts[1..]);
    }
  }

  /** A character that starts no instruction is passed over. */
  lemma ScanSkips(c: char, s: string)
    requires c != 'm' && c != 'd'
    ensures Scan([c] + s) == Scan(s)
  {
    assert ([c] + s)[1..] == s;
  }

  /** Text without an `m` or a `d` holds no instruction. */
  lemma {:induction false} ScanNothing(s: string)
    requires forall i :: 0 <= i < |s| ==> s[i] != 'm' && s[i] != 'd'
    ensures Scan(s) == []
  {
    if |s| > 0 {
      ScanNothing(s[1..]);
    }
  }

  // ---------------------------------------------------------------------
  // solvePart1 and solvePart2

  /** What a token adds to a sum: the product of a `mul`, nothing for a
      toggle. */
  function Value(t: Token): nat {
    match t
    case Mul(a, b) => a * b
    case _ => 0
  }

  /** `solvePart1`: `reduce` from the front, skipping the toggles. */
  function Part1(ts: seq<Token>, acc: int): int
    decreases |ts|
  {
    if |ts| == 0 then acc
    else if ts[0].Do? || ts[0].Dont? then Part1(ts[1..], acc)
    else Part1(ts[1..], acc + ts[0].a * ts[0].b)
  }

  /** `solvePart2`: `reduce` from the front; `on` is the global `_CALC`
      flag, which `do()` sets and `don't()` clears. */
  function Part2(ts: seq<Token>, acc: int, on: bool): int
    decreases |ts|
  {
    if |ts| == 0 then acc
    else if ts[0].Do? || ts[0].Dont? then Part2(ts[1..], acc, ts[0].Do?)
    else if on then Part2(ts[1..], acc + ts[0].a * ts[0].b, on)
    else Part2(ts[1..], acc, on)
  }

  /** The sum of all products, written from the back. */
  function Total(ts: seq<Token>): nat {
    if |ts| == 0 then 0 else Total(ts[..|ts| - 1]) + Value(ts[|ts| - 1])
  }

  /** Whether products count after `ts`: no toggle, or the latest toggle
      is `do()`. */
  predicate Enabled(ts: seq<Token>) {
    if |ts| == 0 then true
    else if ts[|ts| - 1].Do? then true
    else if ts[|ts| - 1].Dont? then false
    else Enabled(ts[..|ts| - 1])
  }

  /** The sum of the products that follow no `don't()`, or whose latest
      preceding toggle is `do()`. */
  function EnabledTotal(ts: seq<Token>): nat {
    if |ts| == 0 then 0
    else
      var init := ts[..|ts| - 1];
      EnabledTotal(init) + (if Enabled(init) then Value(ts[|ts| - 1]) else 0)
  }

  /** Part 1 is the sum of every product. */
  lemma Part1Total(ts: seq<Token>)
    ensures Part1(ts, 0) == Total(ts)
  {
    Part1From(ts, 0);
    assert ts[..0] == [] && ts[0..] == ts;
  }

  /** Folding the tail after `k` tokens carries the total of the head. */
  lemma {:induction false} Part1From(ts: seq<Token>, k: nat)
    requires k <= |ts|
    ensures Part1(ts[k..], Total(ts[..k])) == Total(ts)
    decreases |ts| - k
  {
    if k < |ts| {
      Part1From(ts, k + 1);
      assert ts[..k + 1][..k] == ts[..k];
      assert ts[k..][1..] == ts[k + 1..];
    } else {
      assert ts[..k] == ts;
    }
  }

  /** Part 2 is the sum of the enabled products. */
  lemma Part2Enabled(ts: seq<Token>)
    ensures Part2(ts, 0, true) == EnabledTotal(ts)
  {
    Part2From(ts, 0);
    assert ts[..0] == [] && ts[0..] == ts;
  }

  lemma {:induction false} Part2From(ts: seq<Token>, k: nat)
    requires k <= |ts|
    ensures Part2(ts[k..], EnabledTotal(ts[..k]), Enabled(ts[..k])) == EnabledTotal(ts)
    decreases |ts| - k
  {
    if k < |ts| {
      Part2From(ts, k + 1);
      assert ts[..k + 1][..k] == ts[..k];
      assert ts[k..][1..] == ts[k + 1..];
    } else {
      assert ts[..k] == ts;
    }
  }

  /** Switching products off never adds: part 2 is at most part 1. */
  lemma {:induction false} EnabledAtMostTotal(ts: seq<Token>)
    ensures EnabledTotal(ts) <= Total(ts)
  {
    if |ts| > 0 {
      EnabledAtMostTotal(ts[..|ts| - 1]);
    }
  }

  /** Without `don't()` both parts agree. */
  lemma {:induction false} NoDontSame(ts: seq<Token>)
    requires Dont !in ts
    ensures Enabled(ts) && EnabledTotal(ts) == Total(ts)
  {
    if |ts| > 0 {
      var init := ts[..|ts| - 1];
      NoDontSame(init);
    }
  }

  /** After a `don't()` with no `do()` behind it nothing more counts. */
  lemma {:induction false} SwitchedOff(pre: seq<Token>, ts: seq<Token>)
    requires Do !in ts
    ensures EnabledTotal(pre + [Dont] + ts) == EnabledTotal(pre)
    ensures !Enabled(pre + [Dont] + ts)
    decreases |ts|
  {
    var whole := pre + [Dont] + ts;
    if |ts| == 0 {
      assert whole[..|whole| - 1] == pre;
    } else {
      var init := ts[..|ts| - 1];
      assert whole[..|whole| - 1] == pre + [Dont] + init;
      SwitchedOff(pre, init);
    }
  }

  /** `parseInput`, then both parts; a text without any instruction makes
      `parseInput` throw. */
  function Solve(input: string): (r: Result<(int, int), JsError>)
    ensures r.Failure? <==> Scan(input) == []
    ensures r.Success? ==> r.value == (Total(Scan(input)), EnabledTotal(Scan(input)))
    ensures r.Success? ==> r.value.1 <= r.value.0
  {
    match ParseInput(input)
    case Failure(e) => Failure(e)
    case Success(ts) =>
      Part1Total(ts);
      Part2Enabled(ts);
      EnabledAtMostTotal(ts);
      Success((Part1(ts, 0), Part2(ts, 0, true)))
  }

  /** The instructions of the puzzle's example, written out plainly: 161
      in part 1 and 48 in part 2. */
  lemma Example(ts: seq<Token>)
    requires ts == [Mul(2, 4), Dont, Mul(5, 5), Mul(11, 8), Do, Mul(8, 5)]
    ensures Solve(Render(ts)) == Success((161, 48))
  {
    ScanRender(ts);
    ExampleTotals(ts);
  }

  lemma ExampleTotals(ts: seq<Token>)
    requires ts == [Mul(2, 4), Dont, Mul(5, 5), Mul(11, 8), Do, Mul(8, 5)]
    ensures Total(ts) == 161 && EnabledTotal(ts) == 48
  {
    var t1, t2, t3, t4, t5 := ts[..1], ts[..2], ts[..3], ts[..4], ts[..5];
    assert t1[..0] == [] && t2[..1] == t1 && t3[..2] == t2 && t4[..3] == t3 && t5[..4] == t4 && ts[..5] == t5;
    assert Total(t1) == 8 && EnabledTotal(t1) == 8 && Enabled(t1);
    assert Total(t2) == 8 && EnabledTotal(t2) == 8 && !Enabled(t2);
    assert Total(t3) == 33 && EnabledTotal(t3) == 8 && !Enabled(t3);
    assert Total(t4) == 121 && EnabledTotal(t4) == 8 && !Enabled(t4);
    assert Total(t5) == 121 && EnabledTotal(t5) == 8 && Enabled(t5);
  }
}
