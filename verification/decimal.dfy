/** Decimal digits of natural numbers: powers of ten, digit counts, the
    decimal text `${n}` and the value of a run of digits (`parseInt`). */
module Decimal {

  function Pow10(n: nat): (p: nat)
    ensures p >= 1
  {
    if n == 0 then 1 else 10 * Pow10(n - 1)
  }

  lemma {:induction false} Pow10Add(a: nat, b: nat)
    ensures Pow10(a + b) == Pow10(a) * Pow10(b)
  {
    if a > 0 {
      Pow10Add(a - 1, b);
    }
  }

  lemma {:induction false} Pow10Monotone(a: nat, b: nat)
    requires a <= b
    ensures Pow10(a) <= Pow10(b)
    decreases b
  {
    if a < b {
      Pow10Monotone(a, b - 1);
    }
  }

  /** Number of decimal digits of n; zero is written with one digit. */
  function Digits(n: nat): (c: nat)
    ensures c >= 1
    ensures n < Pow10(c)
    ensures n > 0 ==> Pow10(c - 1) <= n
  {
    if n < 10 then 1 else 1 + Digits(n / 10)
  }

  /** The loop of `countDigits`: zero has one digit, otherwise count the
      divisions by ten until nothing is left. */
  method CountDigits(num: nat) returns (count: nat)
    ensures count == Digits(num)
    ensures num > 0 ==> Pow10(count - 1) <= num < Pow10(count)
    ensures num == 0 ==> count == 1
  {
    if num == 0 {
      return 1;
    }
    count := 0;
    var n: nat := num;
    while n > 0
      invariant n == 0 ==> count == Digits(num)
      invariant n > 0 ==> count + Digits(n) == Digits(num)
      decreases n
    {
      if n >= 10 {
        assert Digits(n) == 1 + Digits(n / 10);
      } else {
        assert Digits(n) == 1;
      }
      count := count + 1;
      n := n / 10;
    }
  }

  predicate IsDigit(c: char) {
    '0' <= c <= '9'
  }

  predicate AllDigits(s: string) {
    forall i :: 0 <= i < |s| ==> IsDigit(s[i])
  }

  function DigitChar(d: nat): (c: char)
    requires d < 10
    ensures IsDigit(c)
  {
    ['0', '1', '2', '3', '4', '5', '6', '7', '8', '9'][d]
  }

  function CharValue(c: char): (d: nat)
    requires IsDigit(c)
    ensures d < 10
  {
    (c as int - '0' as int) as nat
  }

  lemma CharValueOfDigitChar(d: nat)
    requires d < 10
    ensures CharValue(DigitChar(d)) == d
  {
  }

  /** The decimal text of n, as JavaScript's `${n}` writes a non-negative integer. */
  function DecimalString(n: nat): (s: string)
    ensures |s| == Digits(n)
    ensures AllDigits(s)
    ensures s[0] == '0' ==> n == 0
  {
    if n < 10 then [DigitChar(n)] else DecimalString(n / 10) + [DigitChar(n % 10)]
  }

  /** The value of a run of decimal digits; leading zeros are allowed and add
      nothing, as with `parseInt` and `Number` on such a run. */
  function DigitValue(s: string): (v: nat)
    requires AllDigits(s)
    ensures v < Pow10(|s|)
  {
    if |s| == 0 then 0
    else
      var p := DigitValue(s[..|s| - 1]);
      assert p <= Pow10(|s| - 1) - 1;
      p * 10 + CharValue(s[|s| - 1])
  }

  lemma {:induction false} DigitValueOfDecimalString(n: nat)
    ensures DigitValue(DecimalString(n)) == n
  {
    if n >= 10 {
      var s := DecimalString(n);
      assert s[..|s| - 1] == DecimalString(n / 10);
      DigitValueOfDecimalString(n / 10);
      CharValueOfDigitChar(n % 10);
    } else {
      CharValueOfDigitChar(n);
    }
  }

  /** Reading a concatenation of digit runs: the left run is shifted by the
      length of the right one. */
  lemma {:induction false} DigitValueAppend(a: string, b: string)
    requires AllDigits(a) && AllDigits(b)
    ensures AllDigits(a + b)
    ensures DigitValue(a + b) == DigitValue(a) * Pow10(|b|) + DigitValue(b)
  {
    if |b| > 0 {
      var ab := a + b;
      assert ab[..|ab| - 1] == a + b[..|b| - 1];
      DigitValueAppend(a, b[..|b| - 1]);
      var x, p, y, c := DigitValue(a), Pow10(|b| - 1), DigitValue(b[..|b| - 1]), CharValue(b[|b| - 1]);
      assert DigitValue(ab) == DigitValue(a + b[..|b| - 1]) * 10 + c;
      assert DigitValue(b) == y * 10 + c;
      ShiftDigit(x, p, y, c);
    } else {
      assert a + b == a;
    }
  }

  lemma ShiftDigit(x: int, p: int, y: int, c: int)
    ensures (x * p + y) * 10 + c == x * (p * 10) + (y * 10 + c)
  {
  }

  /** Splitting the text of n at k and reading both halves gives back n
      once the left half is shifted by the length of the right half. */
  lemma SplitDecimal(n: nat, k: nat)
    requires k <= Digits(n)
    ensures AllDigits(DecimalString(n)[..k]) && AllDigits(DecimalString(n)[k..])
    ensures DigitValue(DecimalString(n)[..k]) * Pow10(Digits(n) - k)
            + DigitValue(DecimalString(n)[k..]) == n
  {
    SplitValue(n, k, DecimalString(n), Digits(n));
  }

  /** SplitDecimal with the text s and its length d of n named. */
  lemma SplitValue(n: nat, k: nat, s: string, d: nat)
    requires s == DecimalString(n) && d == Digits(n) && k <= d
    ensures AllDigits(s[..k]) && AllDigits(s[k..])
    ensures DigitValue(s[..k]) * Pow10(d - k) + DigitValue(s[k..]) == n
  {
    DigitValueOfDecimalString(n);
    SplitDigits(s, k);
  }

  /** Any digit text cut at k: the left part shifted by the length of the
      right part, plus the right part, is the value of the whole text. */
  lemma SplitDigits(s: string, k: nat)
    requires AllDigits(s) && k <= |s|
    ensures AllDigits(s[..k]) && AllDigits(s[k..])
    ensures DigitValue(s[..k]) * Pow10(|s| - k) + DigitValue(s[k..]) == DigitValue(s)
  {
    var a, b := s[..k], s[k..];
    assert a + b == s;
    DigitValueAppend(a, b);
  }

  /** `Number(`${l}${r}`)`: the value of the two decimal texts written side by side. */
  lemma ConcatDecimal(l: nat, r: nat)
    ensures AllDigits(DecimalString(l) + DecimalString(r))
    ensures DigitValue(DecimalString(l) + DecimalString(r)) == l * Pow10(Digits(r)) + r
  {
    DigitValueAppend(DecimalString(l), DecimalString(r));
    DigitValueOfDecimalString(l);
    DigitValueOfDecimalString(r);
  }

  lemma DecimalInjective(a: nat, b: nat)
    requires DecimalString(a) == DecimalString(b)
    ensures a == b
  {
    DigitValueOfDecimalString(a);
    DigitValueOfDecimalString(b);
  }

  /** `${i}` for an integer: a minus sign before the digits of a
      negative one. */
  function IntText(i: int): string {
    if i < 0 then "-" + DecimalString(-i) else DecimalString(i)
  }
}
