/** Plutonian stones (day_11/solution.js): every blink replaces each stone
    by one or two stones according to its number, and `blink(stone, n)`
    counts the stones one stone turns into after n blinks, with a memo
    keyed by the stone and the blinks left. */
module StoneBlink {
  import opened Wrappers
  import opened Decimal
  import opened Text

  /** `input.split(' ').map(Number)`. */
  function ParseInput(input: string): (r: seq<Option<int>>)
    ensures |r| == |Split(input, ' ')|
    ensures forall i :: 0 <= i < |r| ==> r[i] == Number(Split(input, ' ')[i])
  {
    var words := Split(input, ' ');
    seq(|words|, i requires 0 <= i < |words| => Number(words[i]))
  }

  /** Stones written as the puzzle writes them parse back. */
  lemma ParseInputOfStones(stones: seq<nat>)
    requires |stones| >= 1
    ensures ParseInput(Join(StoneTexts(stones), ' ')) == seq(|stones|, i requires 0 <= i < |stones| => Some(stones[i] as int))
  {
    var texts := StoneTexts(stones);
    forall i | 0 <= i < |texts|
      ensures ' ' !in texts[i]
    {
      DigitsFree(texts[i], ' ');
    }
    SplitJoin(texts, ' ');
    forall i | 0 <= i < |stones|
      ensures Number(texts[i]) == Some(stones[i] as int)
    {
      NumberOfDecimal(stones[i]);
    }
  }

  function StoneTexts(stones: seq<nat>): (r: seq<string>)
    ensures |r| == |stones|
    ensures forall i :: 0 <= i < |stones| ==> r[i] == DecimalString(stones[i])
  {
    seq(|stones|, i requires 0 <= i < |stones| => DecimalString(stones[i]))
  }

  // ---------------------------------------------------------------------
  // The rules

  /** Half the number of digits of a stone. */
  function Half(stone: nat): nat {
    Digits(stone) / 2
  }

  /** The first half of a stone's digits as a number. */
  function Left(stone: nat): nat {
    stone / Pow10(Half(stone))
  }

  /** The second half of a stone's digits as a number, leading zeros
      dropped. */
  function Right(stone: nat): nat {
    stone % Pow10(Half(stone))
  }

  /** The halves are what `parseInt` reads from the two halves of the
      stone's decimal text, `str.slice(0, str.length / 2)` and
      `str.slice(str.length / 2)`, when the digit count is even. */
  lemma HalvesAreText(stone: nat)
    requires Digits(stone) % 2 == 0
    ensures AllDigits(DecimalString(stone)[..Half(stone)]) && AllDigits(DecimalString(stone)[Half(stone)..])
    ensures Left(stone) == DigitValue(DecimalString(stone)[..Half(stone)])
    ensures Right(stone) == DigitValue(DecimalString(stone)[Half(stone)..])
  {
    var d, k := Digits(stone), Half(stone);
    var s := DecimalString(stone);
    SplitDecimal(stone, k);
    assert d - k == k && |s[k..]| == k;
    DivModUnique(stone, Pow10(k), DigitValue(s[..k]), DigitValue(s[k..]));
  }

  lemma DivModUnique(x: nat, p: nat, q: nat, r: nat)
    requires p >= 1 && r < p && x == q * p + r
    ensures x / p == q && x % p == r
  {
    var q', r' := x / p, x % p;
    assert x == q' * p + r';
    assert (q - q') * p == r' - r by {
      assert (q - q') * p == q * p - q' * p;
    }
    AtLeastOnce(q - q', p);
    AtLeastOnce(q' - q, p);
    assert (q' - q) * p == -((q - q') * p);
  }

  lemma AtLeastOnce(a: int, p: nat)
    ensures a >= 1 ==> a * p >= p
  {
    assert a * p == (a - 1) * p + p;
  }

  /** The halves put back together give the stone. */
  lemma HalvesJoin(stone: nat)
    ensures Left(stone) * Pow10(Half(stone)) + Right(stone) == stone
    ensures Right(stone) < Pow10(Half(stone))
  {
  }

  /** What one blink makes of a stone: 0 becomes 1, a stone with an even
      number of digits splits into its halves, any other is multiplied by
      2024. */
  function Children(stone: nat): (r: seq<nat>)
    ensures |r| == 1 || |r| == 2
    ensures stone == 0 ==> r == [1]
    ensures |r| == 2 <==> stone > 0 && Digits(stone) % 2 == 0
    ensures |r| == 1 && stone > 0 ==> r[0] == stone * 2024
  {
    if stone == 0 then [1]
    else if Digits(stone) % 2 == 0 then [Left(stone), Right(stone)]
    else [stone * 2024]
  }

  /** A stone that splits is its two children written side by side, the
      right one padded to half the digits. */
  lemma ChildrenJoin(stone: nat)
    requires |Children(stone)| == 2
    ensures Children(stone)[0] * Pow10(Half(stone)) + Children(stone)[1] == stone
    ensures Children(stone)[1] < Pow10(Half(stone))
  {
    HalvesJoin(stone);
  }

  /** The row of stones after one blink, each replaced in place. */
  function BlinkAll(stones: seq<nat>): seq<nat> {
    if |stones| == 0 then []
    else BlinkAll(stones[..|stones| - 1]) + Children(stones[|stones| - 1])
  }

  /** The row of stones after n blinks: the reference the count is
      measured against. */
  function Evolve(stones: seq<nat>, n: nat): seq<nat>
    decreases n
  {
    if n == 0 then stones else Evolve(BlinkAll(stones), n - 1)
  }

  // ---------------------------------------------------------------------
  // Counting

  /** `blink(stone, blinks)` without the memo, digits counted with
      `countDigits`: one stone when no blink is left, otherwise the counts
      of what the stone becomes. */
  function Blink(stone: nat, blinks: int): (n: nat)
    ensures n >= 1
    decreases if blinks > 0 then blinks else 0
  {
    if blinks - 1 < 0 then 1
    else if stone == 0 then Blink(1, blinks - 1)
    else if Digits(stone) % 2 == 0 then Blink(Left(stone), blinks - 1) + Blink(Right(stone), blinks - 1)
    else Blink(stone * 2024, blinks - 1)
  }

  /** The counts of a row of stones (`part += blink(stone, blinks)`). */
  function SumBlinks(stones: seq<nat>, blinks: int): nat {
    if |stones| == 0 then 0
    else SumBlinks(stones[..|stones| - 1], blinks) + Blink(stones[|stones| - 1], blinks)
  }

  lemma {:induction false} SumBlinksAppend(a: seq<nat>, b: seq<nat>, blinks: int)
    ensures SumBlinks(a + b, blinks) == SumBlinks(a, blinks) + SumBlinks(b, blinks)
    decreases |b|
  {
    if |b| > 0 {
      assert (a + b)[..|a + b| - 1] == a + b[..|b| - 1];
      SumBlinksAppend(a, b[..|b| - 1], blinks);
    } else {
      assert a + b == a;
    }
  }

  lemma BlinkChildren(stone: nat, blinks: nat)
    ensures Blink(stone, blinks + 1) == SumBlinks(Children(stone), blinks)
  {
    var c := Children(stone);
    if |c| == 2 {
      SumTwo(c[0], c[1], blinks);
      assert c == [c[0], c[1]];
    } else {
      SumOne(c[0], blinks);
      assert c == [c[0]];
    }
  }

  lemma SumOne(x: nat, blinks: int)
    ensures SumBlinks([x], blinks) == Blink(x, blinks)
  {
    assert [x][..0] == [];
  }

  lemma SumTwo(x: nat, y: nat, blinks: int)
    ensures SumBlinks([x, y], blinks) == Blink(x, blinks) + Blink(y, blinks)
  {
    assert [x, y][..1] == [x];
    SumOne(x, blinks);
  }

  /** Counting the row after one more blink. */
  lemma {:induction false} SumBlinkAll(stones: seq<nat>, blinks: nat)
    ensures SumBlinks(BlinkAll(stones), blinks) == SumBlinks(stones, blinks + 1)
    decreases |stones|
  {
    if |stones| > 0 {
      var n := |stones| - 1;
      SumBlinkAll(stones[..n], blinks);
      SumBlinksAppend(BlinkAll(stones[..n]), Children(stones[n]), blinks);
      BlinkChildren(stones[n], blinks);
    }
  }

  lemma {:induction false} SumBlinksZero(stones: seq<nat>)
    ensures SumBlinks(stones, 0) == |stones|
    decreases |stones|
  {
    if |stones| > 0 {
      SumBlinksZero(stones[..|stones| - 1]);
    }
  }

  /** The count is the length of the row the blinks produce. */
  lemma {:induction false} SumBlinksCountsStones(stones: seq<nat>, n: nat)
    ensures SumBlinks(stones, n) == |Evolve(stones, n)|
    decreases n
  {
    if n == 0 {
      SumBlinksZero(stones);
    } else {
      SumBlinksCountsStones(BlinkAll(stones), n - 1);
      CountsStep(stones, n);
    }
  }

  lemma CountsStep(stones: seq<nat>, n: nat)
    requires n >= 1
    requires SumBlinks(BlinkAll(stones), n - 1) == |Evolve(BlinkAll(stones), n - 1)|
    ensures SumBlinks(stones, n) == |Evolve(stones, n)|
  {
    var next := BlinkAll(stones);
    assert Evolve(stones, n) == Evolve(next, n - 1);
    SumBlinkAll(stones, n - 1);
  }

  /** One stone after n blinks is `blink(stone, n)` stones. */
  lemma BlinkCountsStones(stone: nat, n: nat)
    ensures Blink(stone, n) == |Evolve([stone], n)|
  {
    SumBlinksCountsStones([stone], n);
    assert [stone][..0] == [];
  }

  /** Another blink never leaves fewer stones. */
  lemma {:induction false} BlinkGrows(stone: nat, blinks: nat)
    ensures Blink(stone, blinks + 1) >= Blink(stone, blinks)
    decreases blinks
  {
    if blinks > 0 {
      if stone == 0 {
        BlinkGrows(1, blinks - 1);
      } else if Digits(stone) % 2 == 0 {
        BlinkGrows(Left(stone), blinks - 1);
        BlinkGrows(Right(stone), blinks - 1);
      } else {
        BlinkGrows(stone * 2024, blinks - 1);
      }
    }
  }

  lemma {:induction false} BlinkMonotone(stone: nat, a: nat, b: nat)
    requires a <= b
    ensures Blink(stone, a) <= Blink(stone, b)
    decreases b - a
  {
    if a < b {
      BlinkMonotone(stone, a, b - 1);
      BlinkGrows(stone, b - 1);
    }
  }

  lemma {:induction false} SumBlinksMonotone(stones: seq<nat>, a: nat, b: nat)
    requires a <= b
    ensures SumBlinks(stones, a) <= SumBlinks(stones, b)
    decreases |stones|
  {
    if |stones| > 0 {
      SumBlinksMonotone(stones[..|stones| - 1], a, b);
      BlinkMonotone(stones[|stones| - 1], a, b);
    }
  }

  // ---------------------------------------------------------------------
  // The memo

  /** `${stone}-${blinks}`. */
  function MemoKey(stone: nat, blinks: int): string {
    DecimalString(stone) + "-" + IntText(blinks)
  }

  lemma DigitsNoDash(s: string)
    requires AllDigits(s)
    ensures '-' !in s
  {
    DigitsFree(s, '-');
  }

  /** The stone's text is everything before the first dash of the key. */
  lemma KeyHead(stone: nat, rest: string)
    ensures '-' in DecimalString(stone) + "-" + rest
    ensures IndexOf(DecimalString(stone) + "-" + rest, '-') == |DecimalString(stone)|
  {
    var t := DecimalString(stone);
    var k := t + "-" + rest;
    DigitsNoDash(t);
    assert k[|t|] == '-' && k[..|t|] == t;
    IndexOfIs(k, '-', |t|);
  }

  /** Distinct stones or blink counts get distinct keys, so the memo
      keyed by text is a memo keyed by the pair. */
  lemma MemoKeyInjective(s1: nat, b1: int, s2: nat, b2: int)
    requires MemoKey(s1, b1) == MemoKey(s2, b2)
    ensures s1 == s2 && b1 == b2
  {
    var t1, t2 := DecimalString(s1), DecimalString(s2);
    DigitsNoDash(t1);
    DigitsNoDash(t2);
    DashSplits(t1, IntText(b1), t2, IntText(b2));
    DecimalInjective(s1, s2);
    IntTextInjective(b1, b2);
  }

  /** Text without a dash, a dash, then anything: the first dash tells
      the two parts apart. */
  lemma DashSplits(t1: string, r1: string, t2: string, r2: string)
    requires '-' !in t1 && '-' !in t2
    requires t1 + "-" + r1 == t2 + "-" + r2
    ensures t1 == t2 && r1 == r2
  {
    var k := t1 + "-" + r1;
    assert k[|t1|] == '-' && k[..|t1|] == t1;
    assert k[|t2|] == '-' && k[..|t2|] == t2;
    IndexOfIs(k, '-', |t1|);
    IndexOfIs(k, '-', |t2|);
    assert r1 == k[|t1| + 1..];
    assert r2 == k[|t2| + 1..];
  }

  /** `_MEMO`, keyed by the pair its text key spells: every entry is the
      count for its stone with one blink more than the key says (the key
      is made after the decrement). */
  type Memo = map<(nat, int), nat>

  predicate Cached(memo: Memo) {
    forall k :: k in memo ==> memo[k] == Blink(k.0, k.1 + 1)
  }

  /** `blink` with the memo: the count is the one without it, the memo
      stays correct and keeps what it had. */
  method BlinkMemo(stone: nat, blinks: int, memo: Memo) returns (total: nat, memo': Memo)
    requires Cached(memo)
    ensures total == Blink(stone, blinks)
    ensures Cached(memo') && memo.Keys <= memo'.Keys
    decreases if blinks > 0 then blinks else 0
  {
    var left := blinks - 1;
    var key := (stone, left);
    if key in memo {
      return memo[key], memo;
    }
    memo' := memo;
    total := 0;
    if left >= 0 {
      if stone == 0 {
        var t;
        t, memo' := BlinkMemo(1, left, memo');
        total := total + t;
      } else if Digits(stone) % 2 == 0 {
        var l, r;
        l, memo' := BlinkMemo(Left(stone), left, memo');
        r, memo' := BlinkMemo(Right(stone), left, memo');
        total := total + l + r;
      } else {
        var t;
        t, memo' := BlinkMemo(stone * 2024, left, memo');
        total := total + t;
      }
    } else {
      total := 1;
    }
    if key !in memo' {
      memo' := memo'[key := total];
    }
  }

  /** `solvePart1` then `solvePart2`, sharing one memo: the sums of the
      counts after 25 and after 75 blinks. */
  method SolveParts(stones: seq<nat>) returns (part1: nat, part2: nat)
    ensures part1 == SumBlinks(stones, 25) && part2 == SumBlinks(stones, 75)
    ensures part1 == |Evolve(stones, 25)| && part2 == |Evolve(stones, 75)|
    ensures part1 <= part2
  {
    var memo: Memo := map[];
    part1, memo := SumWithMemo(stones, 25, memo);
    part2, memo := SumWithMemo(stones, 75, memo);
    SumBlinksCountsStones(stones, 25);
    SumBlinksCountsStones(stones, 75);
    SumBlinksMonotone(stones, 25, 75);
  }

  /** `for (let stone of data) answer += blink(stone, blinks)`. */
  method SumWithMemo(stones: seq<nat>, blinks: int, memo: Memo) returns (sum: nat, memo': Memo)
    requires Cached(memo)
    ensures sum == SumBlinks(stones, blinks) && Cached(memo')
  {
    sum := 0;
    memo' := memo;
    for i := 0 to |stones|
      invariant sum == SumBlinks(stones[..i], blinks) && Cached(memo')
    {
      var t;
      t, memo' := BlinkMemo(stones[i], blinks, memo');
      assert stones[..i + 1][..i] == stones[..i];
      sum := sum + t;
    }
    assert stones[..|stones|] == stones;
  }

  // ---------------------------------------------------------------------
  // The code as written

  /** `blink` as the file has it: the digit test calls `blinksDigits`,
      which is not defined anywhere, so it throws on every non-zero stone
      with a blink left. */
  function BlinkAsWritten(stone: nat, blinks: int): (r: Result<nat, JsError>)
    decreases if blinks > 0 then blinks else 0
  {
    if blinks - 1 < 0 then Success(1)
    else if stone == 0 then BlinkAsWritten(1, blinks - 1)
    else Failure(ReferenceError)
  }

  /** With two or more blinks every stone reaches the undefined call, so
      both parts throw on any input; where it does not throw it agrees
      with the corrected count. */
  lemma AsWrittenThrows(stone: nat, blinks: int)
    ensures blinks >= 2 ==> BlinkAsWritten(stone, blinks) == Failure(ReferenceError)
    ensures blinks >= 1 && stone != 0 ==> BlinkAsWritten(stone, blinks) == Failure(ReferenceError)
    ensures BlinkAsWritten(stone, blinks).Success? ==> BlinkAsWritten(stone, blinks).value == Blink(stone, blinks)
  {
    if blinks >= 1 && stone == 0 {
      assert BlinkAsWritten(1, blinks - 1) == (if blinks - 1 >= 1 then Failure(ReferenceError) else Success(1));
    }
  }
}
