/** Day 1 in JavaScript (day_1/solution.js): two columns of location ids
    are read as text, each column is sorted numerically, part 1 adds up how
    far apart the ids at each position are, and part 2 adds every left id
    once for each right entry that is the very same text. */
module ListsJs {
  import opened Wrappers
  import opened Decimal
  import opened Text
  import opened Sorting
  import opened ListDistance

  /** An entry of a column: the word in that place on its line, or
      `undefined` (None) when the line has fewer words. */
  type Cell = Option<string>

  // ---------------------------------------------------------------------
  // Reading the columns

  /** `filter(x => x !== '')`: the non-empty pieces, in order. */
  function NonEmpty(pieces: seq<string>): (r: seq<string>)
    ensures |r| <= |pieces|
    ensures forall i :: 0 <= i < |r| ==> r[i] != ""
    ensures (forall i :: 0 <= i < |pieces| ==> pieces[i] != "") ==> r == pieces
  {
    if |pieces| == 0 then []
    else if pieces[0] == "" then NonEmpty(pieces[1..])
    else
      assert pieces == [pieces[0]] + pieces[1..];
      [pieces[0]] + NonEmpty(pieces[1..])
  }

  /** `line.split(' ').filter(x => x !== '')`. */
  function Words(line: string): seq<string> {
    NonEmpty(Split(line, ' '))
  }

  /** `line[k]`: the k-th word, undefined past the end. */
  function WordAt(words: seq<string>, k: nat): Cell {
    if k < |words| then Some(words[k]) else None
  }

  /** The input split at newlines, each line into its words. */
  function Rows(input: string): (r: seq<seq<string>>)
    ensures |r| == |Split(input, '\n')|
  {
    var lines := Split(input, '\n');
    seq(|lines|, i requires 0 <= i < |lines| => Words(lines[i]))
  }

  /** `lines.map(line => line[k])`. */
  function Column(rows: seq<seq<string>>, k: nat): (r: seq<Cell>)
    ensures |r| == |rows|
  {
    seq(|rows|, i requires 0 <= i < |rows| => WordAt(rows[i], k))
  }

  /** The two columns, before sorting: one entry per line of the input. */
  function ParseInput(input: string): (r: (seq<Cell>, seq<Cell>))
    ensures |r.0| == |r.1| == |Split(input, '\n')|
  {
    var rows := Rows(input);
    (Column(rows, 0), Column(rows, 1))
  }

  /** A word as the puzzle writes one: no spaces, no line breaks. */
  predicate IsWord(w: string) {
    w != "" && ' ' !in w && '\n' !in w
  }

  /** One line of the puzzle: the two ids three spaces apart. */
  function LineOf(p: (string, string)): string {
    p.0 + "   " + p.1
  }

  /** The lines of the puzzle joined by line breaks. */
  function Render(pairs: seq<(string, string)>): string {
    Join(seq(|pairs|, i requires 0 <= i < |pairs| => LineOf(pairs[i])), '\n')
  }

  /** Reading a rendered list gives back both columns, every entry
      defined. */
  lemma ParseRender(pairs: seq<(string, string)>)
    requires |pairs| >= 1
    requires forall i :: 0 <= i < |pairs| ==> IsWord(pairs[i].0) && IsWord(pairs[i].1)
    ensures ParseInput(Render(pairs)).0 == seq(|pairs|, i requires 0 <= i < |pairs| => Some(pairs[i].0))
    ensures ParseInput(Render(pairs)).1 == seq(|pairs|, i requires 0 <= i < |pairs| => Some(pairs[i].1))
  {
    var lines := seq(|pairs|, i requires 0 <= i < |pairs| => LineOf(pairs[i]));
    forall i | 0 <= i < |lines|
      ensures '\n' !in lines[i]
    {
      LineFree(pairs[i]);
    }
    SplitJoin(lines, '\n');
    var rows := Rows(Render(pairs));
    forall i | 0 <= i < |pairs|
      ensures rows[i] == [pairs[i].0, pairs[i].1]
    {
      WordsOfLine(pairs[i].0, pairs[i].1);
    }
  }

  lemma LineFree(p: (string, string))
    requires IsWord(p.0) && IsWord(p.1)
    ensures '\n' !in LineOf(p)
  {
    JoinFree([p.0, "", "", p.1], ' ', '\n');
    ThreeSpaces(p.0, p.1);
  }

  /** Two empty pieces between a and b join to three spaces. */
  lemma ThreeSpaces(a: string, b: string)
    ensures Join([a, "", "", b], ' ') == a + "   " + b
  {
    assert [a, "", "", b][1..] == ["", "", b] && ["", "", b][1..] == ["", b] && ["", b][1..] == [b];
    assert Join(["", b], ' ') == " " + b;
    assert Join(["", "", b], ' ') == "  " + b;
  }

  /** Three spaces leave two empty pieces, which the filter drops. */
  lemma WordsOfLine(a: string, b: string)
    requires IsWord(a) && IsWord(b)
    ensures Words(a + "   " + b) == [a, b]
  {
    var pieces := [a, "", "", b];
    ThreeSpaces(a, b);
    SplitJoin(pieces, ' ');
    assert NonEmpty(pieces[3..]) == [b];
    assert NonEmpty(pieces[1..]) == [b];
  }

  /** A trailing line break adds a line with no words, so both columns end
      in `undefined`. */
  lemma TrailingNewline(input: string)
    ensures var cols := ParseInput(input + "\n");
      |cols.0| >= 2 && cols.0[|cols.0| - 1] == None && cols.1[|cols.1| - 1] == None
  {
    SplitTrailing(input, '\n');
    var lines := Split(input + "\n", '\n');
    assert lines[|lines| - 1] == "";
    assert Split("", ' ') == [""];
    assert Words("") == [];
  }

  // ---------------------------------------------------------------------
  // Sorting a column

  /** The defined entries of a column, in order. */
  function Defined(col: seq<Cell>): (r: seq<string>)
    ensures |r| <= |col|
  {
    if |col| == 0 then []
    else if col[0].Some? then [col[0].value] + Defined(col[1..])
    else Defined(col[1..])
  }

  /** Every line had the word. */
  predicate Full(col: seq<Cell>) {
    forall i :: 0 <= i < |col| ==> col[i].Some?
  }

  /** What the comparator `(a, b) => a - b` sees of a word. */
  function Val(s: string): int {
    match Number(s)
    case Some(v) => v
    case None => 0
  }

  /** Every defined entry reads as a number, so that the comparator is a
      consistent order. */
  predicate Numeric(col: seq<Cell>) {
    forall i :: 0 <= i < |col| && col[i].Some? ==> Number(col[i].value).Some?
  }

  predicate NumericWords(ws: seq<string>) {
    forall i :: 0 <= i < |ws| ==> Number(ws[i]).Some?
  }

  /** Words as defined entries. */
  function Somes(ws: seq<string>): (r: seq<Cell>)
    ensures |r| == |ws| && Full(r) && Defined(r) == ws
    ensures forall i :: 0 <= i < |ws| ==> r[i] == Some(ws[i])
  {
    if |ws| == 0 then []
    else
      var t := Somes(ws[1..]);
      assert ([Some(ws[0])] + t)[1..] == t;
      assert ws == [ws[0]] + ws[1..];
      [Some(ws[0])] + t
  }

  /** n undefined entries. */
  function Nones(n: nat): (r: seq<Cell>)
    ensures |r| == n && Defined(r) == []
    ensures forall i :: 0 <= i < n ==> r[i] == None
  {
    if n == 0 then []
    else
      var t := Nones(n - 1);
      assert ([None] + t)[1..] == t;
      [None] + t
  }

  lemma {:induction false} DefinedAppend(a: seq<Cell>, b: seq<Cell>)
    ensures Defined(a + b) == Defined(a) + Defined(b)
  {
    if |a| > 0 {
      assert (a + b)[0] == a[0] && (a + b)[1..] == a[1..] + b;
      DefinedAppend(a[1..], b);
      if a[0].Some? {
        assert [a[0].value] + (Defined(a[1..]) + Defined(b)) == ([a[0].value] + Defined(a[1..])) + Defined(b);
      }
    } else {
      assert a + b == b;
    }
  }

  /** A full column is its defined words. */
  lemma {:induction false} FullIsSomes(col: seq<Cell>)
    requires Full(col)
    ensures col == Somes(Defined(col))
  {
    if |col| > 0 {
      FullIsSomes(col[1..]);
    }
  }

  /** A column with an undefined entry has fewer defined ones. */
  lemma {:induction false} DefinedShort(col: seq<Cell>)
    requires !Full(col)
    ensures |Defined(col)| < |col|
  {
    if col[0].Some? {
      assert !Full(col[1..]) by {
        var i :| 0 <= i < |col| && col[i].None?;
        assert col[1..][i - 1] == col[i];
      }
      DefinedShort(col[1..]);
    }
  }

  /** The defined words of a numeric column are numbers. */
  lemma {:induction false} DefinedNumeric(col: seq<Cell>)
    requires Numeric(col)
    ensures NumericWords(Defined(col))
  {
    if |col| > 0 {
      assert Numeric(col[1..]) by {
        forall i | 0 <= i < |col[1..]| && col[1..][i].Some?
          ensures Number(col[1..][i].value).Some?
        {
          assert col[1..][i] == col[i + 1];
        }
      }
      DefinedNumeric(col[1..]);
    }
  }

  /** Sorting keeps the words, so it keeps them numbers. */
  lemma SortedNumeric(ws: seq<string>)
    requires NumericWords(ws)
    ensures NumericWords(SortBy(ws, Val))
  {
    var r := SortBy(ws, Val);
    forall i | 0 <= i < |r|
      ensures Number(r[i]).Some?
    {
      assert r[i] in multiset(ws);
      var j :| 0 <= j < |ws| && ws[j] == r[i];
    }
  }

  lemma PaddedNumeric(ws: seq<string>, n: nat)
    requires NumericWords(ws)
    ensures Numeric(Somes(ws) + Nones(n))
  {
    var r := Somes(ws) + Nones(n);
    forall i | 0 <= i < |r| && r[i].Some?
      ensures Number(r[i].value).Some?
    {
      assert i < |ws| && r[i] == Some(ws[i]);
    }
  }

  /** No defined entry comes after an undefined one. */
  predicate UndefinedLast(col: seq<Cell>) {
    forall i, j :: 0 <= i < j < |col| && col[i].None? ==> col[j].None?
  }

  /** The words d followed by undefined entries up to length len. */
  function Pad(d: seq<string>, len: nat): seq<Cell>
    requires |d| <= len
  {
    Somes(d) + Nones(len - |d|)
  }

  /** `sort((a, b) => a - b)`: the defined entries sorted stably by their
      numeric value, and the undefined ones at the end, which is where
      `Array.prototype.sort` always puts them. */
  function SortColumn(col: seq<Cell>): (r: seq<Cell>)
    requires Numeric(col)
    ensures |r| == |col| && Numeric(r)
    ensures multiset(Defined(r)) == multiset(Defined(col))
    ensures SortedBy(Defined(r), Val)
    ensures UndefinedLast(r)
  {
    Padded(col);
    Pad(SortBy(Defined(col), Val), |col|)
  }

  /** The sorted words padded with undefined entries have what SortColumn
      promises. */
  lemma Padded(col: seq<Cell>)
    requires Numeric(col)
    ensures |SortBy(Defined(col), Val)| <= |col|
    ensures |Pad(SortBy(Defined(col), Val), |col|)| == |col|
    ensures Numeric(Pad(SortBy(Defined(col), Val), |col|))
    ensures multiset(Defined(Pad(SortBy(Defined(col), Val), |col|))) == multiset(Defined(col))
    ensures SortedBy(Defined(Pad(SortBy(Defined(col), Val), |col|)), Val)
    ensures UndefinedLast(Pad(SortBy(Defined(col), Val), |col|))
  {
    PaddedWords(col, SortBy(Defined(col), Val));
    PadFacts(SortBy(Defined(col), Val), |col|);
  }

  /** Padding keeps the words as the defined entries, each a number, and
      puts every undefined entry last. */
  lemma PadFacts(d: seq<string>, len: nat)
    requires |d| <= len && NumericWords(d)
    ensures |Pad(d, len)| == len && Numeric(Pad(d, len))
    ensures Defined(Pad(d, len)) == d
    ensures UndefinedLast(Pad(d, len))
  {
    var n := len - |d|;
    DefinedAppend(Somes(d), Nones(n));
    PaddedNumeric(d, n);
    NonesLast(d, n);
  }

  lemma PaddedWords(col: seq<Cell>, d: seq<string>)
    requires Numeric(col) && d == SortBy(Defined(col), Val)
    ensures NumericWords(d) && |d| <= |col|
  {
    DefinedNumeric(col);
    SortedNumeric(Defined(col));
  }

  /** Past the first undefined entry every entry is undefined. */
  lemma NonesLast(d: seq<string>, n: nat)
    ensures UndefinedLast(Somes(d) + Nones(n))
  {
    var r := Somes(d) + Nones(n);
    forall i, j | 0 <= i < j < |r| && r[i].None?
      ensures r[j].None?
    {
      assert i >= |d|;
    }
  }

  /** A full column sorts into its words sorted. */
  lemma SortFull(col: seq<Cell>)
    requires Numeric(col) && Full(col)
    ensures SortColumn(col) == Somes(SortBy(Defined(col), Val)) && Full(SortColumn(col))
  {
    FullIsSomes(col);
    assert Nones(0) == [];
  }

  /** Sorting a column with an undefined entry ends it in `undefined`. */
  lemma SortLastUndefined(col: seq<Cell>)
    requires Numeric(col) && !Full(col)
    ensures SortColumn(col)[|col| - 1] == None
  {
    DefinedShort(col);
    var d := SortBy(Defined(col), Val);
    assert SortColumn(col)[|col| - 1] == Nones(|col| - |d|)[|col| - 1 - |d|];
  }

  // ---------------------------------------------------------------------
  // Part 1

  /** The numeric values of the defined entries, in order. */
  function Values(col: seq<Cell>): seq<int> {
    KeysOf(Defined(col), Val)
  }

  /** `Number` applied to an entry, as `a - b` coerces it: undefined and
      text that is no number become NaN (None). */
  function NumberOf(c: Cell): Option<int> {
    match c
    case None => None
    case Some(s) => Number(s)
  }

  /** Each entry of a column as the arithmetic sees it. */
  function Nums(col: seq<Cell>): (r: seq<Option<int>>)
    ensures |r| == |col|
  {
    seq(|col|, i requires 0 <= i < |col| => NumberOf(col[i]))
  }

  /** Numbers, none of them NaN. */
  function Lift(a: seq<int>): (r: seq<Option<int>>)
    ensures |r| == |a|
  {
    seq(|a|, i requires 0 <= i < |a| => Some(a[i]))
  }

  /** `right[i]` as a number, NaN past the end. */
  function At(ns: seq<Option<int>>, i: nat): Option<int> {
    if i < |ns| then ns[i] else None
  }

  /** Addition in which NaN absorbs everything. */
  function Plus(a: Option<int>, b: Option<int>): Option<int> {
    if a.Some? && b.Some? then Some(a.value + b.value) else None
  }

  /** `Math.abs(a - b)`. */
  function Gap(a: Option<int>, b: Option<int>): Option<int> {
    if a.Some? && b.Some? then Some(Abs(a.value - b.value)) else None
  }

  /** The part-1 loop over the first n positions of the left column. */
  function Part1Upto(ls: seq<Option<int>>, rs: seq<Option<int>>, n: nat): Option<int>
    requires n <= |ls|
  {
    if n == 0 then Some(0)
    else Plus(Part1Upto(ls, rs, n - 1), Gap(ls[n - 1], At(rs, n - 1)))
  }

  /** The part-1 loop, `i < left.length`. */
  function Part1(left: seq<Cell>, right: seq<Cell>): Option<int> {
    Part1Upto(Nums(left), Nums(right), |left|)
  }

  /** On numbers of one length the loop computes their distance. */
  lemma {:induction false} Part1Distance(a: seq<int>, b: seq<int>, n: nat)
    requires |a| == |b| && n <= |a|
    ensures Part1Upto(Lift(a), Lift(b), n) == Some(Distance(a[..n], b[..n]))
  {
    if n > 0 {
      Part1Distance(a, b, n - 1);
      assert a[..n][..n - 1] == a[..n - 1] && b[..n][..n - 1] == b[..n - 1];
    }
  }

  /** A full numeric column, sorted, reads as its values sorted. */
  lemma SortedNums(col: seq<Cell>)
    requires Full(col) && Numeric(col)
    ensures |Values(col)| == |col|
    ensures Nums(SortColumn(col)) == Lift(SortBy(Values(col), Id))
  {
    FullIsSomes(col);
    SortFull(col);
    var d := Defined(col);
    var s := SortBy(d, Val);
    SortByKeys(d, Val);
    DefinedNumeric(col);
    SortedNumeric(d);
    forall i | 0 <= i < |col|
      ensures Nums(SortColumn(col))[i] == Lift(SortBy(Values(col), Id))[i]
    {
      assert SortColumn(col)[i] == Some(s[i]);
      assert Number(s[i]).Some?;
      assert KeysOf(s, Val)[i] == Val(s[i]);
    }
  }

  lemma Whole<T>(s: seq<T>)
    ensures s[..|s|] == s
  {
  }

  /** Part 1 on the sorted columns is the distance of the sorted lists of
      values. */
  lemma Part1Sorted(left: seq<Cell>, right: seq<Cell>)
    requires Full(left) && Full(right) && Numeric(left) && Numeric(right) && |left| == |right|
    ensures |Values(left)| == |Values(right)|
    ensures Part1(SortColumn(left), SortColumn(right)) == Some(SortedDistance(Values(left), Values(right)))
  {
    SortedNums(left);
    SortedNums(right);
    var a, b := SortBy(Values(left), Id), SortBy(Values(right), Id);
    Part1Distance(a, b, |a|);
    Whole(a);
    Whole(b);
  }

  /** Part 1 is 0 exactly when both columns hold the same numbers, each as
      often. */
  lemma Part1Zero(left: seq<Cell>, right: seq<Cell>)
    requires Full(left) && Full(right) && Numeric(left) && Numeric(right) && |left| == |right|
    ensures Part1(SortColumn(left), SortColumn(right)) == Some(0)
        <==> multiset(Values(left)) == multiset(Values(right))
  {
    Part1Sorted(left, right);
    SortedDistanceZero(Values(left), Values(right));
  }

  /** Part 1 does not depend on the order of the lines. */
  lemma Part1OrderFree(left: seq<Cell>, right: seq<Cell>, left2: seq<Cell>, right2: seq<Cell>)
    requires Full(left) && Full(right) && Numeric(left) && Numeric(right) && |left| == |right|
    requires Full(left2) && Full(right2) && Numeric(left2) && Numeric(right2) && |left2| == |right2|
    requires multiset(Values(left2)) == multiset(Values(left))
    requires multiset(Values(right2)) == multiset(Values(right))
    ensures Part1(SortColumn(left2), SortColumn(right2)) == Part1(SortColumn(left), SortColumn(right))
  {
    Part1Sorted(left, right);
    Part1Sorted(left2, right2);
    SortedDistanceOrderFree(Values(left), Values(left2), Values(right), Values(right2));
  }

  /** A NaN term makes the whole sum NaN. */
  lemma {:induction false} Part1Absorbs(ls: seq<Option<int>>, rs: seq<Option<int>>, k: nat, n: nat)
    requires k < n <= |ls| && Gap(ls[k], At(rs, k)) == None
    ensures Part1Upto(ls, rs, n) == None
  {
    if n - 1 > k {
      Part1Absorbs(ls, rs, k, n - 1);
    }
  }

  /** A line without two words (the empty line after a trailing line break,
      say) makes part 1 NaN: its `undefined` sorts last and `undefined - x`
      is NaN. */
  lemma UndefinedIsNaN(left: seq<Cell>, right: seq<Cell>)
    requires Numeric(left) && Numeric(right) && |left| == |right| && !Full(left)
    ensures Part1(SortColumn(left), SortColumn(right)) == None
  {
    SortLastUndefined(left);
    var ls := Nums(SortColumn(left));
    assert ls[|left| - 1] == None;
    Part1Absorbs(ls, Nums(SortColumn(right)), |left| - 1, |left|);
  }

  // ---------------------------------------------------------------------
  // Part 2

  /** `right[j]`, undefined past the end. */
  function CellAt(col: seq<Cell>, j: nat): Cell {
    if j < |col| then col[j] else None
  }

  /** The inner loop for one left entry x whose number is nx: for every j
      below `bound` (`left.length`), `right[j] === x` adds `Number(x)`. */
  function Row(x: Cell, nx: Option<int>, right: seq<Cell>, bound: nat): Option<int> {
    if bound == 0 then Some(0)
    else Plus(Row(x, nx, right, bound - 1), if CellAt(right, bound - 1) == x then nx else Some(0))
  }

  /** The outer loop from position i on, with the running sum; ns holds
      the left entries as numbers. */
  function Part2From(left: seq<Cell>, ns: seq<Option<int>>, right: seq<Cell>, i: nat, acc: Option<int>): Option<int>
    requires i <= |left| == |ns|
    decreases |left| - i
  {
    if i == |left| then acc
    else Part2From(left, ns, right, i + 1, Plus(acc, Row(left[i], ns[i], right, |left|)))
  }

  /** The part-2 loops. */
  function Part2(left: seq<Cell>, right: seq<Cell>): Option<int> {
    Part2From(left, Nums(left), right, 0, Some(0))
  }

  /** A NaN sum stays NaN. */
  lemma {:induction false} Part2FromAbsorbs(left: seq<Cell>, ns: seq<Option<int>>, right: seq<Cell>, i: nat)
    requires i <= |left| == |ns|
    ensures Part2From(left, ns, right, i, None) == None
    decreases |left| - i
  {
    if i < |left| {
      Part2FromAbsorbs(left, ns, right, i + 1);
    }
  }

  /** A left entry whose row is NaN makes the whole sum NaN. */
  lemma {:induction false} Part2FromNaN(left: seq<Cell>, ns: seq<Option<int>>, right: seq<Cell>, i: nat, acc: Option<int>, k: nat)
    requires i <= k < |left| == |ns| && Row(left[k], ns[k], right, |left|) == None
    ensures Part2From(left, ns, right, i, acc) == None
    decreases |left| - i
  {
    if i == k {
      Part2FromAbsorbs(left, ns, right, i + 1);
    } else {
      Part2FromNaN(left, ns, right, i + 1, Plus(acc, Row(left[i], ns[i], right, |left|)), k);
    }
  }

  /** When both columns miss an entry (the empty line after a trailing
      line break, say), both sort an `undefined` last; `undefined ===
      undefined` holds, and `Number(undefined)` makes part 2 NaN. */
  lemma BothUndefinedIsNaN(left: seq<Cell>, right: seq<Cell>)
    requires Numeric(left) && Numeric(right) && |left| == |right|
    ensures !Full(left) && !Full(right) ==> Part2(SortColumn(left), SortColumn(right)) == None
  {
    if !Full(left) && !Full(right) {
      SortLastUndefined(left);
      SortLastUndefined(right);
      var sl, sr := SortColumn(left), SortColumn(right);
      var k := |left| - 1;
      assert Nums(sl)[k] == None;
      assert CellAt(sr, k) == sl[k];
      Part2FromNaN(sl, Nums(sl), sr, 0, Some(0), k);
    }
  }

  /** v once for every entry of ys equal to x. */
  function Matches<T(==)>(x: T, v: int, ys: seq<T>): int {
    if |ys| == 0 then 0
    else Matches(x, v, ys[..|ys| - 1]) + (if ys[|ys| - 1] == x then v else 0)
  }

  /** Matching adds v as often as x occurs. */
  lemma {:induction false} MatchesCount<T>(x: T, v: int, ys: seq<T>)
    ensures Matches(x, v, ys) == v * multiset(ys)[x]
  {
    if |ys| > 0 {
      var init := ys[..|ys| - 1];
      MatchesCount(x, v, init);
      assert ys == init + [ys[|ys| - 1]];
      var c := multiset(init)[x];
      if ys[|ys| - 1] == x {
        assert multiset(ys)[x] == c + 1;
        MulSucc(v, c);
      } else {
        assert multiset(ys)[x] == c;
      }
    }
  }

  lemma MulSucc(v: int, c: int)
    ensures v * (c + 1) == v * c + v
  {
  }

  /** The inner loop stops at `left.length`: right entries past it are
      never looked at. */
  lemma {:induction false} RowPrefix(x: Cell, nx: Option<int>, right: seq<Cell>, extra: seq<Cell>, n: nat)
    requires n <= |right|
    ensures Row(x, nx, right + extra, n) == Row(x, nx, right, n)
  {
    if n > 0 {
      RowPrefix(x, nx, right, extra, n - 1);
      assert (right + extra)[n - 1] == right[n - 1];
    }
  }

  lemma {:induction false} Part2FromPrefix(left: seq<Cell>, ns: seq<Option<int>>, right: seq<Cell>,
                                           extra: seq<Cell>, i: nat, acc: Option<int>)
    requires i <= |left| == |ns| <= |right|
    ensures Part2From(left, ns, right + extra, i, acc) == Part2From(left, ns, right, i, acc)
    decreases |left| - i
  {
    if i < |left| {
      RowPrefix(left[i], ns[i], right, extra, |left|);
      Part2FromPrefix(left, ns, right, extra, i + 1, Plus(acc, Row(left[i], ns[i], right, |left|)));
    }
  }

  /** Part 2 reads only the first `left.length` entries of the right
      column: a longer right column is cut short. */
  lemma Part2IgnoresTail(left: seq<Cell>, right: seq<Cell>, extra: seq<Cell>)
    requires |left| <= |right|
    ensures Part2(left, right + extra) == Part2(left, right)
  {
    Part2FromPrefix(left, Nums(left), right, extra, 0, Some(0));
  }

  /** The similarity score: every left word's number once for each time
      the same text occurs on the right. */
  function Similarity(xs: seq<string>, ys: seq<string>, key: string -> int): int {
    if |xs| == 0 then 0 else Matches(xs[0], key(xs[0]), ys) + Similarity(xs[1..], ys, key)
  }

  /** The inner loop is the matching sum over the first n right
      entries. */
  lemma {:induction false} RowMatches(x: Cell, v: int, right: seq<Cell>, n: nat)
    requires n <= |right|
    ensures Row(x, Some(v), right, n) == Some(Matches(x, v, right[..n]))
  {
    if n > 0 {
      RowMatches(x, v, right, n - 1);
      assert right[..n][..n - 1] == right[..n - 1];
    }
  }

  /** Wrapping words as entries keeps how often each occurs. */
  lemma {:induction false} SomesCount(ys: seq<string>, x: string)
    ensures multiset(Somes(ys))[Some(x)] == multiset(ys)[x]
  {
    if |ys| > 0 {
      SomesCount(ys[1..], x);
      assert Somes(ys) == [Some(ys[0])] + Somes(ys[1..]);
      assert ys == [ys[0]] + ys[1..];
    }
  }

  /** Wrapping words as entries keeps what matches. */
  lemma SomesMatches(x: string, v: int, ys: seq<string>)
    ensures Matches(Some(x), v, Somes(ys)) == Matches(x, v, ys)
  {
    MatchesCount(Some(x), v, Somes(ys));
    MatchesCount(x, v, ys);
    SomesCount(ys, x);
  }

  lemma {:induction false} Part2FromSimilarity(xs: seq<string>, ys: seq<string>, ns: seq<Option<int>>,
                                               key: string -> int, i: nat, acc: Option<int>)
    requires |xs| == |ys| == |ns| && i <= |xs|
    requires forall k :: 0 <= k < |xs| ==> ns[k] == Some(key(xs[k]))
    ensures Part2From(Somes(xs), ns, Somes(ys), i, acc) == Plus(acc, Some(Similarity(xs[i..], ys, key)))
    decreases |xs| - i
  {
    var left, right := Somes(xs), Somes(ys);
    if i < |xs| {
      var row := Row(left[i], ns[i], right, |left|);
      RowMatches(Some(xs[i]), key(xs[i]), right, |ys|);
      assert right[..|ys|] == right;
      SomesMatches(xs[i], key(xs[i]), ys);
      assert row == Some(Matches(xs[i], key(xs[i]), ys));
      assert Part2From(left, ns, right, i, acc) == Part2From(left, ns, right, i + 1, Plus(acc, row));
      assert Similarity(xs[i..], ys, key) == Matches(xs[i], key(xs[i]), ys) + Similarity(xs[i + 1..], ys, key) by {
        assert xs[i..][1..] == xs[i + 1..];
      }
      Part2FromSimilarity(xs, ys, ns, key, i + 1, Plus(acc, row));
      PlusAssoc(acc, Matches(xs[i], key(xs[i]), ys), Similarity(xs[i + 1..], ys, key));
    } else {
      assert Part2From(left, ns, right, i, acc) == acc;
      assert xs[i..] == [];
      assert Similarity(xs[i..], ys, key) == 0;
    }
  }

  lemma PlusAssoc(a: Option<int>, m: int, t: int)
    ensures Plus(Plus(a, Some(m)), Some(t)) == Plus(a, Some(m + t))
  {
  }

  /** Numeric words read as their values. */
  lemma NumsOfWords(xs: seq<string>)
    requires NumericWords(xs)
    ensures forall k :: 0 <= k < |xs| ==> Nums(Somes(xs))[k] == Some(Val(xs[k]))
  {
    forall k | 0 <= k < |xs|
      ensures Nums(Somes(xs))[k] == Some(Val(xs[k]))
    {
      assert Somes(xs)[k] == Some(xs[k]);
      assert Number(xs[k]).Some?;
    }
  }

  /** On full numeric columns of one length part 2 is the similarity
      score. */
  lemma Part2Similarity(xs: seq<string>, ys: seq<string>)
    requires |xs| == |ys| && NumericWords(xs)
    ensures Part2(Somes(xs), Somes(ys)) == Some(Similarity(xs, ys, Val))
  {
    NumsOfWords(xs);
    Part2FromSimilarity(xs, ys, Nums(Somes(xs)), Val, 0, Some(0));
    assert xs[0..] == xs;
  }

  /** Each left word adds its number times how often it occurs on the
      right; words that never occur there add nothing. */
  lemma {:induction false} SimilarityCounts(xs: seq<string>, ys: seq<string>, key: string -> int)
    ensures |xs| > 0 ==>
      Similarity(xs, ys, key) == key(xs[0]) * multiset(ys)[xs[0]] + Similarity(xs[1..], ys, key)
    ensures (forall k :: 0 <= k < |xs| ==> xs[k] !in ys) ==> Similarity(xs, ys, key) == 0
  {
    if |xs| > 0 {
      MatchesCount(xs[0], key(xs[0]), ys);
      SimilarityCounts(xs[1..], ys, key);
      if forall k :: 0 <= k < |xs| ==> xs[k] !in ys {
        assert xs[0] !in ys;
        assert forall k :: 0 <= k < |xs[1..]| ==> xs[1..][k] == xs[k + 1];
      }
    }
  }

  lemma {:induction false} SimilarityInsert(x: string, s: seq<string>, ys: seq<string>, key: string -> int)
    ensures Similarity(Insert(x, s, key), ys, key) == Matches(x, key(x), ys) + Similarity(s, ys, key)
  {
    var r := Insert(x, s, key);
    if |s| == 0 || key(x) <= key(s[0]) {
      assert r[1..] == s;
    } else {
      assert r[1..] == Insert(x, s[1..], key);
      SimilarityInsert(x, s[1..], ys, key);
    }
  }

  lemma {:induction false} SimilaritySortLeft(xs: seq<string>, ys: seq<string>, key: string -> int)
    ensures Similarity(SortBy(xs, key), ys, key) == Similarity(xs, ys, key)
  {
    if |xs| > 0 {
      SimilaritySortLeft(xs[1..], ys, key);
      SimilarityInsert(xs[0], SortBy(xs[1..], key), ys, key);
    }
  }

  lemma {:induction false} SimilarityRight(xs: seq<string>, ys: seq<string>, ys2: seq<string>, key: string -> int)
    requires multiset(ys2) == multiset(ys)
    ensures Similarity(xs, ys2, key) == Similarity(xs, ys, key)
  {
    if |xs| > 0 {
      SimilarityRight(xs[1..], ys, ys2, key);
      MatchesCount(xs[0], key(xs[0]), ys);
      MatchesCount(xs[0], key(xs[0]), ys2);
    }
  }

  /** The score does not depend on the order of either column. */
  lemma SimilaritySorted(xs: seq<string>, ys: seq<string>, key: string -> int)
    ensures Similarity(SortBy(xs, key), SortBy(ys, key), key) == Similarity(xs, ys, key)
  {
    SimilarityRight(SortBy(xs, key), ys, SortBy(ys, key), key);
    SimilaritySortLeft(xs, ys, key);
  }

  /** Part 2 compares the raw text with `===`: `3` and `03` are the same
      number but not the same word, so they do not pair up. */
  lemma RawText(three: string, padded: string)
    requires three == "3" && padded == "03"
    ensures Number(three) == Number(padded) == Some(3)
    ensures Part2([Some(three)], [Some(padded)]) == Some(0)
  {
    PaddedNumber(three, padded);
    RawPart2(three, padded);
  }

  lemma PaddedNumber(three: string, padded: string)
    requires three == "3" && padded == "03"
    ensures Number(three) == Number(padded) == Some(3)
  {
    ThreeNumber(three);
    PaddedDigits(padded);
  }

  lemma ThreeNumber(three: string)
    requires three == "3"
    ensures Number(three) == Some(3)
  {
    NumberOfDigits(three);
  }

  lemma PaddedDigits(padded: string)
    requires padded == "03"
    ensures Number(padded) == Some(3)
  {
    NumberOfDigits(padded);
    PaddedValue(padded);
  }

  lemma PaddedValue(padded: string)
    requires padded == "03"
    ensures DigitValue(padded) == 3
  {
    var zero := padded[..1];
    assert zero[..0] == [] && zero[0] == '0';
    assert DigitValue(zero) == 0;
    assert padded[..|padded| - 1] == zero && padded[|padded| - 1] == '3';
  }

  lemma RawPart2(x: string, y: string)
    requires x != y
    ensures Part2([Some(x)], [Some(y)]) == Some(0)
  {
    var left, right := [Some(x)], [Some(y)];
    var ns := Nums(left);
    assert Row(left[0], ns[0], right, 1) == Some(0);
    assert Part2From(left, ns, right, 1, Some(0)) == Some(0);
    assert Part2(left, right) == Part2From(left, ns, right, 1, Plus(Some(0), Row(left[0], ns[0], right, 1)));
  }

  // ---------------------------------------------------------------------
  // The whole solution

  /** Both parts, on the sorted columns. Words that are no number are left
      out: the comparator gives NaN for them and the order is then up to
      the engine. */
  function Solve(input: string): (r: (Option<int>, Option<int>))
    requires Numeric(ParseInput(input).0) && Numeric(ParseInput(input).1)
    ensures var (l, rt) := ParseInput(input);
      Full(l) && Full(rt) ==>
        |Values(l)| == |Values(rt)| &&
        r.0 == Some(SortedDistance(Values(l), Values(rt))) &&
        r.1 == Some(Similarity(Defined(l), Defined(rt), Val))
    ensures !Full(ParseInput(input).0) ==> r.0 == None
    ensures !Full(ParseInput(input).0) && !Full(ParseInput(input).1) ==> r.1 == None
  {
    var (l, rt) := ParseInput(input);
    var sl, sr := SortColumn(l), SortColumn(rt);
    BothUndefinedIsNaN(l, rt);
    if Full(l) && Full(rt) then
      Part1Sorted(l, rt);
      SolvePart2(l, rt);
      (Part1(sl, sr), Part2(sl, sr))
    else if !Full(l) then
      UndefinedIsNaN(l, rt);
      (Part1(sl, sr), Part2(sl, sr))
    else (Part1(sl, sr), Part2(sl, sr))
  }

  /** Part 2 on the sorted full columns is the score of the columns as
      read. */
  lemma SolvePart2(l: seq<Cell>, rt: seq<Cell>)
    requires Full(l) && Full(rt) && Numeric(l) && Numeric(rt) && |l| == |rt|
    ensures Part2(SortColumn(l), SortColumn(rt)) == Some(Similarity(Defined(l), Defined(rt), Val))
  {
    SortFull(l);
    SortFull(rt);
    FullIsSomes(l);
    FullIsSomes(rt);
    DefinedNumeric(l);
    SortedNumeric(Defined(l));
    Part2Similarity(SortBy(Defined(l), Val), SortBy(Defined(rt), Val));
    SimilaritySorted(Defined(l), Defined(rt), Val);
  }
}
