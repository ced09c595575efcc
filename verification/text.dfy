/** The JavaScript string operations the solvers parse their input with:
    `split` on one character, `trim`, `indexOf` on an array of lines and
    `Number` on a string of decimal digits. */
module Text {
  import opened Wrappers
  import opened Decimal

  /** JavaScript white space and line terminators, the characters `trim`
      removes. */
  predicate IsSpace(c: char) {
    var k := c as int;
    (9 <= k <= 13) || k == 32 || (k >= 160 && WideSpace(k))
  }

  predicate WideSpace(k: int) {
    k == 160 || k == 5760 || (8192 <= k <= 8202) || k == 8232 || k == 8233 || k == 8239 || k == 8287 || k == 12288 || k == 65279
  }

  lemma DigitNotSpace(c: char)
    requires IsDigit(c)
    ensures !IsSpace(c)
  {
    assert 48 <= c as int <= 57;
  }

  function TrimStart(s: string): (r: string)
    ensures |r| <= |s| && r == s[|s| - |r|..]
    ensures |r| > 0 ==> !IsSpace(r[0])
  {
    if |s| > 0 && IsSpace(s[0]) then TrimStart(s[1..]) else s
  }

  function TrimEnd(s: string): (r: string)
    ensures |r| <= |s| && r == s[..|r|]
    ensures |r| > 0 ==> !IsSpace(r[|r| - 1])
  {
    if |s| > 0 && IsSpace(s[|s| - 1]) then TrimEnd(s[..|s| - 1]) else s
  }

  lemma {:induction false} TrimStartDropsSpace(s: string)
    ensures forall i :: 0 <= i < |s| - |TrimStart(s)| ==> IsSpace(s[i])
  {
    if |s| > 0 && IsSpace(s[0]) {
      TrimStartDropsSpace(s[1..]);
      forall i | 1 <= i < |s| - |TrimStart(s)|
        ensures IsSpace(s[i])
      {
        assert s[i] == s[1..][i - 1];
      }
    }
  }

  lemma {:induction false} TrimEndDropsSpace(s: string)
    ensures forall i :: |TrimEnd(s)| <= i < |s| ==> IsSpace(s[i])
  {
    if |s| > 0 && IsSpace(s[|s| - 1]) {
      TrimEndDropsSpace(s[..|s| - 1]);
      forall i | |TrimEnd(s)| <= i < |s| - 1
        ensures IsSpace(s[i])
      {
        assert s[i] == s[..|s| - 1][i];
      }
    }
  }

  /** `s.trim()`: s with its leading and trailing white space removed. */
  function Trim(s: string): (r: string)
    ensures |r| > 0 ==> !IsSpace(r[0]) && !IsSpace(r[|r| - 1])
  {
    var t := TrimStart(s);
    var r := TrimEnd(t);
    assert |r| > 0 ==> r[0] == t[0];
    r
  }

  /** What trim keeps is one slice of s. */
  lemma TrimSlice(s: string)
    ensures |s| - |TrimStart(s)| + |Trim(s)| <= |s|
    ensures Trim(s) == s[|s| - |TrimStart(s)|..|s| - |TrimStart(s)| + |Trim(s)|]
  {
    var t := TrimStart(s);
    var r := TrimEnd(t);
    var a := |s| - |t|;
    assert Trim(s) == r;
    assert t == s[a..] && r == t[..|r|];
    assert s[a..][..|r|] == s[a..a + |r|];
  }

  /** Everything trim removes is white space. */
  lemma TrimDropsSpace(s: string)
    ensures forall i :: 0 <= i < |s| - |TrimStart(s)| ==> IsSpace(s[i])
    ensures forall i :: |s| - |TrimStart(s)| + |Trim(s)| <= i < |s| ==> IsSpace(s[i])
  {
    var t := TrimStart(s);
    var a := |s| - |t|;
    TrimStartDropsSpace(s);
    TrimEndDropsSpace(t);
    forall i | a + |Trim(s)| <= i < |s|
      ensures IsSpace(s[i])
    {
      assert s[i] == t[i - a];
    }
  }

  /** Trimming a trimmed string changes nothing. */
  lemma TrimIdempotent(s: string)
    ensures Trim(Trim(s)) == Trim(s)
  {
    var r := Trim(s);
    if |r| > 0 {
      assert TrimStart(r) == r;
      assert TrimEnd(r) == r;
    }
  }

  /** `s.split(sep)` for a one-character separator: the pieces between the
      separators, always at least one. */
  function Split(s: string, sep: char): (r: seq<string>)
    ensures |r| >= 1
    ensures forall i :: 0 <= i < |r| ==> sep !in r[i]
    decreases |s|
  {
    if sep !in s then [s]
    else
      var k := IndexOf(s, sep);
      [s[..k]] + Split(s[k + 1..], sep)
  }

  /** Position of the first occurrence of c in s. */
  function IndexOf(s: string, c: char): (k: nat)
    requires c in s
    ensures k < |s| && s[k] == c && c !in s[..k]
  {
    if s[0] == c then 0 else 1 + IndexOf(s[1..], c)
  }

  /** `pieces.join(sep)`. */
  function Join(pieces: seq<string>, sep: char): string {
    if |pieces| == 0 then ""
    else if |pieces| == 1 then pieces[0]
    else pieces[0] + [sep] + Join(pieces[1..], sep)
  }

  /** Splitting loses nothing: joining the pieces gives the string back. */
  lemma {:induction false} JoinSplit(s: string, sep: char)
    ensures Join(Split(s, sep), sep) == s
    decreases |s|
  {
    if sep in s {
      var k := IndexOf(s, sep);
      var rest := Split(s[k + 1..], sep);
      var pieces := [s[..k]] + rest;
      assert Split(s, sep) == pieces;
      assert pieces[0] == s[..k] && pieces[1..] == rest && |pieces| >= 2;
      JoinSplit(s[k + 1..], sep);
      assert Join(pieces, sep) == s[..k] + [sep] + s[k + 1..];
      assert s == s[..k] + [sep] + s[k + 1..];
    }
  }

  /** A run of digits holds no other character. */
  lemma DigitsFree(s: string, c: char)
    requires AllDigits(s) && !IsDigit(c)
    ensures c !in s
  {
    forall j | 0 <= j < |s|
      ensures s[j] != c
    {
      assert IsDigit(s[j]);
    }
  }

  /** A join holds no character that is neither the separator nor in a
      piece. */
  lemma {:induction false} JoinFree(pieces: seq<string>, sep: char, c: char)
    requires c != sep && forall i :: 0 <= i < |pieces| ==> c !in pieces[i]
    ensures c !in Join(pieces, sep)
  {
    if |pieces| > 1 {
      JoinFree(pieces[1..], sep, c);
      assert forall i :: 0 <= i < |pieces[1..]| ==> pieces[1..][i] == pieces[i + 1];
    }
  }

  /** And splitting a join of separator-free pieces gives the pieces back. */
  lemma {:induction false} SplitJoin(pieces: seq<string>, sep: char)
    requires |pieces| >= 1
    requires forall i :: 0 <= i < |pieces| ==> sep !in pieces[i]
    ensures Split(Join(pieces, sep), sep) == pieces
  {
    if |pieces| > 1 {
      var s := Join(pieces, sep);
      var p := pieces[0];
      var rest := Join(pieces[1..], sep);
      assert s == p + [sep] + rest;
      assert s[|p|] == sep && s[..|p|] == p;
      IndexOfIs(s, sep, |p|);
      assert s[|p| + 1..] == rest;
      assert Split(s, sep) == [p] + Split(rest, sep);
      SplitJoin(pieces[1..], sep);
      assert pieces == [p] + pieces[1..];
    }
  }

  /** A separator at the end adds one empty piece. */
  lemma {:induction false} SplitTrailing(s: string, sep: char)
    ensures Split(s + [sep], sep) == Split(s, sep) + [""]
    decreases |s|
  {
    var t := s + [sep];
    if sep !in s {
      assert t[..|s|] == s;
      IndexOfIs(t, sep, |s|);
      assert t[|s| + 1..] == "";
      assert Split("", sep) == [""];
      assert Split(t, sep) == [s] + [""];
    } else {
      var k := IndexOf(s, sep);
      assert t[..k] == s[..k];
      IndexOfIs(t, sep, k);
      assert t[k + 1..] == s[k + 1..] + [sep];
      SplitTrailing(s[k + 1..], sep);
      assert Split(t, sep) == [s[..k]] + Split(s[k + 1..] + [sep], sep);
      assert Split(s, sep) == [s[..k]] + Split(s[k + 1..], sep);
    }
  }

  /** The first occurrence is the one with none before it. */
  lemma IndexOfIs(s: string, c: char, j: nat)
    requires j < |s| && s[j] == c && c !in s[..j]
    ensures IndexOf(s, c) == j
  {
    var k := IndexOf(s, c);
    if k < j {
      assert false;
    } else if j < k {
      assert false;
    }
  }

  /** `xs.indexOf(x)` for values `===` compares by value: the first index
      holding x, or -1. */
  function Find<T(==)>(xs: seq<T>, x: T): (k: int)
    ensures -1 <= k < |xs|
    ensures k == -1 <==> x !in xs
    ensures k >= 0 ==> xs[k] == x && x !in xs[..k]
  {
    if |xs| == 0 then -1
    else if xs[0] == x then 0
    else
      var k := Find(xs[1..], x);
      assert k >= 0 ==> xs[1..][..k] == xs[1..k + 1];
      if k == -1 then -1 else k + 1
  }

  /** Find answers the first occurrence, so any index with no occurrence
      before it is Find's answer. */
  lemma FindIs<T>(xs: seq<T>, x: T, j: nat)
    requires j < |xs| && xs[j] == x && x !in xs[..j]
    ensures Find(xs, x) == j
  {
    var k := Find(xs, x);
    assert k >= 0 && x !in xs[..k];
  }

  /** `Number(s)` for the strings the solvers pass it: white space around
      an optional sign and decimal digits. The empty (or all white space)
      string is 0. JavaScript also reads decimal fractions, exponents,
      `0x`/`0o`/`0b` prefixes and `Infinity`; this definition reads every
      other string, those included, as NaN (None). */
  function Number(s: string): (r: Option<int>)
    ensures Trim(s) == "" ==> r == Some(0)
    ensures Trim(s) != "" && AllDigits(Trim(s)) ==> r == Some(DigitValue(Trim(s)))
  {
    var t := Trim(s);
    if t == "" then Some(0)
    else if AllDigits(t) then Some(DigitValue(t))
    else if |t| > 1 && (t[0] == '-' || t[0] == '+') && AllDigits(t[1..]) then
      var v: int := DigitValue(t[1..]);
      if t[0] == '-' then Some(-v) else Some(v)
    else None
  }

  /** `Number(c)` on a single character: its digit value, 0 for white
      space, NaN (None) for anything else. */
  function CharNumber(c: char): (r: Option<int>)
    ensures r.Some? ==> 0 <= r.value <= 9
    ensures r.Some? && r.value > 0 ==> IsDigit(c)
  {
    if IsDigit(c) then Some(CharValue(c)) else if IsSpace(c) then Some(0) else None
  }

  /** CharNumber is Number on a one-character string. */
  lemma CharNumberIsNumber(c: char)
    ensures CharNumber(c) == Number([c])
  {
    if IsSpace(c) {
      assert TrimStart([c]) == TrimStart([]);
      assert Trim([c]) == [];
    } else {
      assert TrimStart([c]) == [c];
      assert TrimEnd([c]) == [c];
      assert Trim([c]) == [c];
      if IsDigit(c) {
        assert [c][..0] == [];
        assert DigitValue([c]) == CharValue(c);
      }
    }
  }

  /** Number reads a non-empty run of digits as its decimal value. */
  lemma NumberOfDigits(s: string)
    requires |s| > 0 && AllDigits(s)
    ensures Number(s) == Some(DigitValue(s))
  {
    assert IsDigit(s[0]) && IsDigit(s[|s| - 1]);
    DigitNotSpace(s[0]);
    DigitNotSpace(s[|s| - 1]);
    assert TrimStart(s) == s;
    assert TrimEnd(s) == s;
  }

  /** Number reads back the decimal text of every natural number. */
  lemma NumberOfDecimal(n: nat)
    ensures Number(DecimalString(n)) == Some(n)
  {
    NumberOfDigits(DecimalString(n));
    DigitValueOfDecimalString(n);
  }

  /** Number reads back the text of every integer. */
  lemma NumberOfIntText(i: int)
    ensures Number(IntText(i)) == Some(i)
  {
    if i >= 0 {
      NumberOfDecimal(i);
    } else {
      var d := DecimalString(-i);
      DigitValueOfDecimalString(-i);
      assert IntText(i) == "-" + d;
      NumberOfSigned(d, -i);
    }
  }

  /** A minus sign before a run of digits reads as the negated value. */
  lemma NumberOfSigned(d: string, v: int)
    requires |d| > 0 && AllDigits(d) && DigitValue(d) == v
    ensures Number("-" + d) == Some(-v)
  {
    var t := "-" + d;
    assert t[1..] == d && t[|t| - 1] == d[|d| - 1];
    DigitNotSpace(d[|d| - 1]);
    assert t[0] == '-' && !IsSpace(t[0]) && !IsDigit(t[0]);
    assert TrimStart(t) == t;
    assert TrimEnd(t) == t;
  }

  /** Hence distinct integers have distinct texts. */
  lemma IntTextInjective(a: int, b: int)
    requires IntText(a) == IntText(b)
    ensures a == b
  {
    NumberOfIntText(a);
    NumberOfIntText(b);
  }
}
