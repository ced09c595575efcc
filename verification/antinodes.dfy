/** Resonant antinodes (day_8/solution.js): antennas of one frequency pair
    up, and every ordered pair casts antinodes along its line. Part 1 counts
    the cells one step beyond each antenna of a pair, part 2 every in-bounds
    cell of the line from an antenna outward. */
module Antinodes {
  import opened Wrappers
  import opened Text

  /** `[x, y]`: column, then row. */
  type Pos = (int, int)

  /** `input.split('\n').map(line => line.split(''))`. */
  type Grid = seq<seq<char>>

  const Empty := '.'
  const Mark := '#'

  /** `grid[y][x]`, None where that row or column does not exist. */
  function CellAt(grid: Grid, p: Pos): (c: Option<char>)
    ensures c.Some? <==> 0 <= p.1 < |grid| && 0 <= p.0 < |grid[p.1]|
  {
    if 0 <= p.1 < |grid| && 0 <= p.0 < |grid[p.1]| then Some(grid[p.1][p.0]) else None
  }

  /** The cell already holds a `#` in the input. */
  predicate Hash(grid: Grid, p: Pos) {
    CellAt(grid, p) == Some(Mark)
  }

  /** `isWithinBounds`: measured against the width of the first row. */
  predicate InBounds(grid: Grid, p: Pos)
    requires |grid| >= 1
  {
    0 <= p.0 < |grid[0]| && 0 <= p.1 < |grid|
  }

  /** Every row as wide as the first. */
  predicate Rect(grid: Grid) {
    |grid| >= 1 && forall y :: 0 <= y < |grid| ==> |grid[y]| == |grid[0]|
  }

  /** No row wider than the first, so every cell lies within
      `isWithinBounds`. */
  predicate Bounded(grid: Grid) {
    |grid| >= 1 && forall y :: 0 <= y < |grid| ==> |grid[y]| <= |grid[0]|
  }

  /** The input read with its final line break splits into the rows of
      the grid and one empty row, which `isWithinBounds` still counts as
      inside (its width is taken from the first row). Such a grid is
      bounded. */
  lemma TrailingRowBounded(text: string)
    requires Rect(Split(text, '\n'))
    ensures Bounded(Split(text + "\n", '\n'))
    ensures |Split(text + "\n", '\n')| == |Split(text, '\n')| + 1
    ensures forall p :: CellAt(Split(text + "\n", '\n'), p) == CellAt(Split(text, '\n'), p)
  {
    SplitTrailing(text, '\n');
  }

  // ---------------------------------------------------------------------
  // parseInput: the antennas of each frequency, in reading order

  /** p comes before q in reading order. */
  predicate Before(p: Pos, q: Pos) {
    p.1 < q.1 || (p.1 == q.1 && p.0 < q.0)
  }

  predicate Ordered(cells: seq<(Pos, char)>) {
    forall i, j :: 0 <= i < j < |cells| ==> Before(cells[i].0, cells[j].0)
  }

  predicate Increasing(ps: seq<Pos>) {
    forall i, j :: 0 <= i < j < |ps| ==> Before(ps[i], ps[j])
  }

  /** The antennas among the first n cells of row y. */
  function RowCells(row: seq<char>, y: int, n: nat): (cs: seq<(Pos, char)>)
    requires n <= |row|
    ensures forall p, c :: (p, c) in cs <==> p.1 == y && 0 <= p.0 < n && row[p.0] == c && c != Empty
    ensures forall k :: 0 <= k < |cs| ==> cs[k].0.1 == y && 0 <= cs[k].0.0 < n
    ensures Ordered(cs)
  {
    if n == 0 then []
    else
      var before := RowCells(row, y, n - 1);
      before + (if row[n - 1] != Empty then [((n - 1, y), row[n - 1])] else [])
  }

  /** The antennas of the first n rows, in the order `forEach` visits them. */
  function Cells(grid: Grid, n: nat): (cs: seq<(Pos, char)>)
    requires n <= |grid|
    ensures forall p, c :: (p, c) in cs <==> CellAt(grid, p) == Some(c) && p.1 < n && c != Empty
    ensures forall k :: 0 <= k < |cs| ==> 0 <= cs[k].0.1 < n
    ensures Ordered(cs)
  {
    if n == 0 then []
    else
      var before := Cells(grid, n - 1);
      var row := RowCells(grid[n - 1], n - 1, |grid[n - 1]|);
      before + row
  }

  /** The positions of the antennas of frequency c, in order. */
  function PositionsOf(cells: seq<(Pos, char)>, c: char): (ps: seq<Pos>)
    ensures forall p :: p in ps <==> (p, c) in cells
    ensures Ordered(cells) ==> Increasing(ps)
  {
    if |cells| == 0 then []
    else
      var before := PositionsOf(cells[..|cells| - 1], c);
      var last := cells[|cells| - 1];
      assert cells == cells[..|cells| - 1] + [last];
      OrderedLast(cells, before, c);
      before + (if last.1 == c then [last.0] else [])
  }

  lemma OrderedLast(cells: seq<(Pos, char)>, before: seq<Pos>, c: char)
    requires |cells| >= 1 && forall p :: p in before <==> (p, c) in cells[..|cells| - 1]
    requires Ordered(cells) ==> Increasing(before)
    ensures Ordered(cells) ==> Increasing(before + [cells[|cells| - 1].0])
  {
    if Ordered(cells) {
      var n := |cells|;
      forall i | 0 <= i < |before|
        ensures Before(before[i], cells[n - 1].0)
      {
        assert (before[i], c) in cells[..n - 1];
        var k :| 0 <= k < n - 1 && cells[..n - 1][k] == (before[i], c);
        assert cells[k].0 == before[i];
      }
    }
  }

  /** The `Map` from frequency to antenna positions, as its entries in
      insertion order. */
  type Antennas = seq<(char, seq<Pos>)>

  predicate DistinctKeys(m: Antennas) {
    forall i, j :: 0 <= i < j < |m| ==> m[i].0 != m[j].0
  }

  function Keys(m: Antennas): (ks: seq<char>)
    ensures |ks| == |m| && forall i :: 0 <= i < |m| ==> ks[i] == m[i].0
  {
    seq(|m|, i requires 0 <= i < |m| => m[i].0)
  }

  /** `m.get(k)`: None stands for `undefined`. */
  function Get(m: Antennas, k: char): (r: Option<seq<Pos>>)
    ensures r.None? <==> k !in Keys(m)
    ensures DistinctKeys(m) ==> forall i :: 0 <= i < |m| && m[i].0 == k ==> r == Some(m[i].1)
  {
    var i := Find(Keys(m), k);
    FirstKey(m, k);
    if i < 0 then None else Some(m[i].1)
  }

  /** With distinct keys, the key's only entry is its first. */
  lemma FirstKey(m: Antennas, k: char)
    ensures DistinctKeys(m) ==> forall j :: 0 <= j < |m| && m[j].0 == k ==> Find(Keys(m), k) == j
  {
    if DistinctKeys(m) {
      forall j | 0 <= j < |m| && m[j].0 == k
        ensures Find(Keys(m), k) == j
      {
        assert Keys(m)[j] == k;
      }
    }
  }

  /** `m.set(k, v)`: the value of an existing key is replaced in place, a
      new key goes at the end. */
  function Put(m: Antennas, k: char, v: seq<Pos>): (r: Antennas)
    requires DistinctKeys(m)
    ensures DistinctKeys(r)
    ensures Get(r, k) == Some(v)
    ensures forall c :: c != k ==> Get(r, c) == Get(m, c)
    ensures Get(m, k).None? ==> r == m + [(k, v)]
    ensures Get(m, k).Some? ==> |r| == |m|
  {
    var i := Find(Keys(m), k);
    var r := if i < 0 then m + [(k, v)] else m[i := (k, v)];
    PutOthers(m, k, v, r);
    r
  }

  lemma PutOthers(m: Antennas, k: char, v: seq<Pos>, r: Antennas)
    requires DistinctKeys(m)
    requires var i := Find(Keys(m), k); r == if i < 0 then m + [(k, v)] else m[i := (k, v)]
    ensures DistinctKeys(r) && Get(r, k) == Some(v)
    ensures forall c :: c != k ==> Get(r, c) == Get(m, c)
  {
    PutSelf(m, k, v, r);
    forall c | c != k
      ensures Get(r, c) == Get(m, c)
    {
      PutOther(m, k, v, r, c);
    }
  }

  /** After the put, k is found where it was, or at the end, with v. */
  lemma PutSelf(m: Antennas, k: char, v: seq<Pos>, r: Antennas)
    requires DistinctKeys(m)
    requires var i := Find(Keys(m), k); r == if i < 0 then m + [(k, v)] else m[i := (k, v)]
    ensures DistinctKeys(r) && Get(r, k) == Some(v)
  {
    var i := Find(Keys(m), k);
    if i >= 0 {
      PutOver(m, k, v, i);
    } else {
      PutNew(m, k, v);
    }
  }

  /** Overwriting the entry of a present key keeps every key in place. */
  lemma PutOver(m: Antennas, k: char, v: seq<Pos>, i: nat)
    requires DistinctKeys(m) && i < |m| && m[i].0 == k
    ensures DistinctKeys(m[i := (k, v)]) && Get(m[i := (k, v)], k) == Some(v)
  {
    var r := m[i := (k, v)];
    assert forall j :: 0 <= j < |r| ==> r[j].0 == m[j].0;
    assert r[i] == (k, v);
  }

  /** Appending an absent key keeps the keys distinct. */
  lemma PutNew(m: Antennas, k: char, v: seq<Pos>)
    requires DistinctKeys(m) && k !in Keys(m)
    ensures DistinctKeys(m + [(k, v)]) && Get(m + [(k, v)], k) == Some(v)
  {
    var r := m + [(k, v)];
    assert forall j :: 0 <= j < |m| ==> r[j] == m[j] && m[j].0 == Keys(m)[j];
    assert r[|m|] == (k, v);
  }

  lemma PutOther(m: Antennas, k: char, v: seq<Pos>, r: Antennas, c: char)
    requires DistinctKeys(m) && c != k
    requires var i := Find(Keys(m), k); r == if i < 0 then m + [(k, v)] else m[i := (k, v)]
    ensures Get(r, c) == Get(m, c)
  {
    if c in Keys(m) {
      var j := Find(Keys(m), c);
      assert Keys(m)[j] == c && r[j] == m[j];
      assert Keys(r)[..j] == Keys(m)[..j];
      FindIs(Keys(r), c, j);
    } else {
      assert forall j :: 0 <= j < |r| ==> Keys(r)[j] != c;
    }
  }

  /** What `antennas.get(c)` should answer after the cells: their
      positions of frequency c, or `undefined` when there are none. */
  function Expected(cells: seq<(Pos, char)>, c: char): Option<seq<Pos>> {
    var ps := PositionsOf(cells, c);
    if ps == [] then None else Some(ps)
  }

  predicate Holds(m: Antennas, cells: seq<(Pos, char)>) {
    forall c :: Get(m, c) == Expected(cells, c)
  }

  /** The map `parseInput` builds from the antennas in reading order: each
      frequency present, with all its antennas in order. */
  function Group(cells: seq<(Pos, char)>): (m: Antennas)
    ensures DistinctKeys(m) && Holds(m, cells)
  {
    if |cells| == 0 then []
    else
      var last := cells[|cells| - 1];
      var m0 := Group(cells[..|cells| - 1]);
      var found := Get(m0, last.1);
      var m := Put(m0, last.1, (if found.Some? then found.value else []) + [last.0]);
      GroupStep(cells, m0, m);
      m
  }

  lemma GroupStep(cells: seq<(Pos, char)>, m0: Antennas, m: Antennas)
    requires |cells| >= 1 && DistinctKeys(m0) && Holds(m0, cells[..|cells| - 1])
    requires var last := cells[|cells| - 1]; var found := Get(m0, last.1);
      m == Put(m0, last.1, (if found.Some? then found.value else []) + [last.0])
    ensures Holds(m, cells)
  {
    forall c
      ensures Get(m, c) == Expected(cells, c)
    {
      GroupAt(cells, m0, m, c);
    }
  }

  lemma GroupAt(cells: seq<(Pos, char)>, m0: Antennas, m: Antennas, c: char)
    requires |cells| >= 1 && DistinctKeys(m0) && Holds(m0, cells[..|cells| - 1])
    requires var last := cells[|cells| - 1]; var found := Get(m0, last.1);
      m == Put(m0, last.1, (if found.Some? then found.value else []) + [last.0])
    ensures Get(m, c) == Expected(cells, c)
  {
    var last := cells[|cells| - 1];
    var before := PositionsOf(cells[..|cells| - 1], c);
    assert Get(m0, c) == Expected(cells[..|cells| - 1], c);
    assert PositionsOf(cells, c) == before + (if last.1 == c then [last.0] else []);
    if last.1 == c {
      assert Get(m, c) == Some(before + [last.0]);
    } else {
      assert Get(m, c) == Get(m0, c);
      assert PositionsOf(cells, c) == before;
      assert Expected(cells, c) == Expected(cells[..|cells| - 1], c);
    }
  }

  /** Each entry of the map holds exactly the antennas of its frequency. */
  lemma GroupEntries(cells: seq<(Pos, char)>)
    ensures forall i :: 0 <= i < |Group(cells)| ==>
      Group(cells)[i].1 == PositionsOf(cells, Group(cells)[i].0) && |Group(cells)[i].1| >= 1
  {
    var m := Group(cells);
    forall i | 0 <= i < |m|
      ensures m[i].1 == PositionsOf(cells, m[i].0) && |m[i].1| >= 1
    {
      assert Get(m, m[i].0) == Some(m[i].1);
      assert Get(m, m[i].0) == Expected(cells, m[i].0);
    }
  }

  // ---------------------------------------------------------------------
  // generatePaths

  /** `[[x, y], [dx, dy]]`: an antenna and the vector to it from the other
      antenna of its pair. */
  datatype Path = Path(from: Pos, vec: Pos)

  function Sub(p: Pos, q: Pos): Pos {
    (p.0 - q.0, p.1 - q.1)
  }

  lemma SubSub(p: Pos, q: Pos)
    ensures Sub(p, Sub(p, q)) == q
  {
  }

  /** Antenna a of ps paired with antenna b, both indices into ps. */
  predicate PairIn(ps: seq<Pos>, a: int, b: int, e: Path) {
    0 <= a < |ps| && 0 <= b < |ps| && a != b && e == Path(ps[a], Sub(ps[a], ps[b]))
  }

  /** Antenna i of ps paired with some antenna from j on. */
  ghost predicate PairFromRow(ps: seq<Pos>, i: int, j: int, e: Path) {
    exists b :: j <= b && PairIn(ps, i, b, e)
  }

  /** The inner loop: antenna i against antennas j and later, itself
      skipped. */
  function RowPaths(ps: seq<Pos>, i: nat, j: nat): (r: seq<Path>)
    requires i < |ps| && j <= |ps|
    ensures |r| == |ps| - j - (if j <= i then 1 else 0)
    ensures forall e :: e in r <==> PairFromRow(ps, i, j, e)
    decreases |ps| - j
  {
    if j == |ps| then []
    else
      var rest := RowPaths(ps, i, j + 1);
      var e := Path(ps[i], Sub(ps[i], ps[j]));
      assert i != j ==> PairIn(ps, i, j, e);
      assert forall e' :: PairFromRow(ps, i, j, e') ==> (i != j && e' == e) || PairFromRow(ps, i, j + 1, e');
      (if i == j then [] else [e]) + rest
  }

  /** The outer loop from antenna i on. */
  function PairsFrom(ps: seq<Pos>, i: nat): (r: seq<Path>)
    requires i <= |ps|
    ensures |r| == (|ps| - i) * (|ps| - 1)
    ensures forall e :: e in r <==> exists a, b :: i <= a && PairIn(ps, a, b, e)
    decreases |ps| - i
  {
    if i == |ps| then []
    else
      var r := RowPaths(ps, i, 0) + PairsFrom(ps, i + 1);
      assert (|ps| - i) * (|ps| - 1) == (|ps| - 1) + (|ps| - i - 1) * (|ps| - 1);
      r
  }

  /** Entry e pairs two antennas of one frequency of the map. */
  ghost predicate PairOf(m: Antennas, e: Path) {
    exists g, a, b :: 0 <= g < |m| && PairIn(m[g].1, a, b, e)
  }

  /** `generatePaths`: every ordered pair of distinct antennas of each
      frequency, k(k-1) entries for k antennas. */
  function GeneratePaths(m: Antennas): (r: seq<Path>)
    ensures forall e :: e in r <==> PairOf(m, e)
  {
    if |m| == 0 then []
    else
      var r := PairsFrom(m[0].1, 0) + GeneratePaths(m[1..]);
      assert forall g :: 1 <= g < |m| ==> m[1..][g - 1] == m[g];
      r
  }

  /** Antennas at a and b share a frequency. */
  predicate SameFrequency(grid: Grid, a: Pos, b: Pos) {
    a != b && CellAt(grid, a).Some? && CellAt(grid, a) == CellAt(grid, b) && CellAt(grid, a).value != Empty
  }

  /** The paths of the grid's antennas. */
  function GridPaths(grid: Grid): seq<Path> {
    GeneratePaths(Group(Cells(grid, |grid|)))
  }

  /** The entries of `generatePaths` are exactly the ordered pairs of
      distinct antennas of one frequency. */
  lemma GridPathsArePairs(grid: Grid, a: Pos, b: Pos)
    ensures Path(a, Sub(a, b)) in GridPaths(grid) <==> SameFrequency(grid, a, b)
  {
    if Path(a, Sub(a, b)) in GridPaths(grid) {
      PathIsPair(grid, Path(a, Sub(a, b)));
      SubSub(a, b);
    }
    if SameFrequency(grid, a, b) {
      PairIsPath(grid, a, b);
    }
  }

  /** So each entry starts on an antenna and has a nonzero vector. */
  lemma PathIsPair(grid: Grid, e: Path)
    requires e in GridPaths(grid)
    ensures SameFrequency(grid, e.from, Sub(e.from, e.vec))
    ensures e.vec != (0, 0) && CellAt(grid, e.from).Some?
  {
    var cells := Cells(grid, |grid|);
    var c := GroupedPair(cells, e);
    var b := Sub(e.from, e.vec);
    assert CellAt(grid, e.from) == Some(c) && c != Empty by {
      assert (e.from, c) in cells;
    }
    assert CellAt(grid, b) == Some(c) by {
      assert (b, c) in cells;
    }
    SubSub(e.from, b);
  }

  /** An entry generated from the map pairs two distinct antennas of one
      frequency; it answers that frequency. */
  lemma GroupedPair(cells: seq<(Pos, char)>, e: Path) returns (c: char)
    requires Ordered(cells) && e in GeneratePaths(Group(cells))
    ensures (e.from, c) in cells && (Sub(e.from, e.vec), c) in cells && e.from != Sub(e.from, e.vec)
  {
    var m := Group(cells);
    GroupEntries(cells);
    var g, ia, ib :| 0 <= g < |m| && PairIn(m[g].1, ia, ib, e);
    var ps := m[g].1;
    c := m[g].0;
    assert ps == PositionsOf(cells, c);
    assert Increasing(ps);
    if ia < ib {
      assert Before(ps[ia], ps[ib]);
    } else {
      assert Before(ps[ib], ps[ia]);
    }
    assert ps[ia] in ps && ps[ib] in ps;
    SubSub(ps[ia], ps[ib]);
  }

  lemma PairIsPath(grid: Grid, a: Pos, b: Pos)
    requires SameFrequency(grid, a, b)
    ensures Path(a, Sub(a, b)) in GridPaths(grid)
  {
    var cells := Cells(grid, |grid|);
    var c := CellAt(grid, a).value;
    assert (a, c) in cells && (b, c) in cells;
    PairGrouped(cells, c, a, b);
  }

  /** Two distinct antennas of one frequency make an entry. */
  lemma PairGrouped(cells: seq<(Pos, char)>, c: char, a: Pos, b: Pos)
    requires (a, c) in cells && (b, c) in cells && a != b
    ensures Path(a, Sub(a, b)) in GeneratePaths(Group(cells))
  {
    var m := Group(cells);
    var ps := PositionsOf(cells, c);
    assert a in ps && b in ps;
    assert Get(m, c) == Expected(cells, c) == Some(ps);
    var g := Find(Keys(m), c);
    assert m[g].0 == c && m[g].1 == ps;
    var ia :| 0 <= ia < |ps| && ps[ia] == a;
    var ib :| 0 <= ib < |ps| && ps[ib] == b;
    assert PairIn(m[g].1, ia, ib, Path(a, Sub(a, b)));
  }

  // ---------------------------------------------------------------------
  // solvePart1

  /** The answer so far, and the cells the pass has written `#` into. */
  datatype Tally = Tally(answer: nat, marks: set<Pos>)

  /** `map[y][x] === '#'`: a `#` of the input or one the pass wrote. */
  predicate Marked(grid: Grid, marks: set<Pos>, p: Pos) {
    Hash(grid, p) || p in marks
  }

  /** `[x + dx, y + dy]`: one step along the vector. */
  function Target(e: Path): Pos {
    (e.from.0 + e.vec.0, e.from.1 + e.vec.1)
  }

  /** Some entry's first antinode falls on p. */
  ghost predicate Aimed(paths: seq<Path>, p: Pos) {
    exists k :: 0 <= k < |paths| && Target(paths[k]) == p
  }

  /** `solvePart1`: every in-bounds first antinode not yet `#` is counted
      once and marked, on a copy of the grid. */
  function Part1(grid: Grid, paths: seq<Path>): (t: Tally)
    requires |grid| >= 1
    ensures t.answer == |t.marks|
    ensures forall p :: p in t.marks <==> InBounds(grid, p) && !Hash(grid, p) && Aimed(paths, p)
  {
    if |paths| == 0 then Tally(0, {})
    else
      var t := Part1(grid, paths[..|paths| - 1]);
      var q := Target(paths[|paths| - 1]);
      AimedLast(paths);
      if !InBounds(grid, q) || Marked(grid, t.marks, q) then t
      else Tally(t.answer + 1, t.marks + {q})
  }

  lemma AimedLast(paths: seq<Path>)
    requires |paths| >= 1
    ensures forall p :: Aimed(paths, p) <==> Aimed(paths[..|paths| - 1], p) || p == Target(paths[|paths| - 1])
  {
    var n := |paths|;
    forall p | Aimed(paths[..n - 1], p)
      ensures Aimed(paths, p)
    {
      var k :| 0 <= k < n - 1 && Target(paths[..n - 1][k]) == p;
      assert Target(paths[k]) == p;
    }
    forall p | Aimed(paths, p) && p != Target(paths[n - 1])
      ensures Aimed(paths[..n - 1], p)
    {
      var k :| 0 <= k < n && Target(paths[k]) == p;
      assert paths[..n - 1][k] == paths[k];
    }
  }

  /** `2a - b`: the antinode beyond a, on the far side from b. */
  function Beyond(a: Pos, b: Pos): Pos {
    (2 * a.0 - b.0, 2 * a.1 - b.1)
  }

  /** The puzzle's antinode: beyond one antenna of a same-frequency pair. */
  ghost predicate Antinode(grid: Grid, p: Pos) {
    exists a, b :: SameFrequency(grid, a, b) && Beyond(a, b) == p
  }

  /** Part 1 counts exactly the in-bounds antinodes that are not `#` in the
      input, each once. */
  lemma Part1Antinodes(grid: Grid, p: Pos)
    requires |grid| >= 1
    ensures p in Part1(grid, GridPaths(grid)).marks <==> InBounds(grid, p) && !Hash(grid, p) && Antinode(grid, p)
    ensures Part1(grid, GridPaths(grid)).answer == |Part1(grid, GridPaths(grid)).marks|
  {
    var paths := GridPaths(grid);
    GridPathsPairs(grid);
    if Aimed(paths, p) {
      AimedAntinode(grid, paths, p);
    }
    if Antinode(grid, p) {
      AntinodeAimed(grid, paths, p);
    }
  }

  /** paths holds exactly the ordered same-frequency pairs of the grid. */
  ghost predicate PairsOf(grid: Grid, paths: seq<Path>) {
    forall e :: e in paths <==> SameFrequency(grid, e.from, Sub(e.from, e.vec))
  }

  lemma GridPathsPairs(grid: Grid)
    ensures PairsOf(grid, GridPaths(grid))
  {
    forall e
      ensures e in GridPaths(grid) <==> SameFrequency(grid, e.from, Sub(e.from, e.vec))
    {
      GridPathIs(grid, e);
    }
  }

  lemma GridPathIs(grid: Grid, e: Path)
    ensures e in GridPaths(grid) <==> SameFrequency(grid, e.from, Sub(e.from, e.vec))
  {
    var b := Sub(e.from, e.vec);
    SubSub(e.from, b);
    assert e == Path(e.from, Sub(e.from, b));
    GridPathsArePairs(grid, e.from, b);
  }

  lemma AimedAntinode(grid: Grid, paths: seq<Path>, p: Pos)
    requires PairsOf(grid, paths) && Aimed(paths, p)
    ensures Antinode(grid, p)
  {
    var k :| 0 <= k < |paths| && Target(paths[k]) == p;
    var e := paths[k];
    assert e in paths;
    var b := Sub(e.from, e.vec);
    assert SameFrequency(grid, e.from, b) && Beyond(e.from, b) == p;
  }

  lemma AntinodeAimed(grid: Grid, paths: seq<Path>, p: Pos)
    requires PairsOf(grid, paths) && Antinode(grid, p)
    ensures Aimed(paths, p)
  {
    var a, b :| SameFrequency(grid, a, b) && Beyond(a, b) == p;
    var e := Path(a, Sub(a, b));
    SubSub(a, b);
    assert e in paths;
    var k :| 0 <= k < |paths| && paths[k] == e;
    assert Target(paths[k]) == p;
  }

  // ---------------------------------------------------------------------
  // solvePart2

  /** `j` steps of v from p. */
  function Shift(p: Pos, v: Pos, j: nat): Pos {
    (p.0 + j * v.0, p.1 + j * v.1)
  }

  /** The walk from p stays in bounds for its first j steps. */
  ghost predicate Reached(grid: Grid, p: Pos, v: Pos, j: nat)
    requires |grid| >= 1
  {
    forall i: nat :: i <= j ==> InBounds(grid, Shift(p, v, i))
  }

  /** The walk from p, stepping v while in bounds, passes q. */
  ghost predicate Along(grid: Grid, p: Pos, v: Pos, q: Pos)
    requires |grid| >= 1
  {
    exists j: nat :: Reached(grid, p, v, j) && Shift(p, v, j) == q
  }

  lemma ShiftNext(p: Pos, v: Pos, j: nat)
    ensures Shift((p.0 + v.0, p.1 + v.1), v, j) == Shift(p, v, j + 1)
  {
    assert (j + 1) * v.0 == j * v.0 + v.0;
    assert (j + 1) * v.1 == j * v.1 + v.1;
  }

  /** From an in-bounds cell the walk passes the cell itself and whatever
      the walk from the next cell passes. */
  lemma AlongStep(grid: Grid, p: Pos, v: Pos, q: Pos)
    requires |grid| >= 1 && InBounds(grid, p)
    ensures Along(grid, p, v, q) <==> q == p || Along(grid, (p.0 + v.0, p.1 + v.1), v, q)
  {
    var n := (p.0 + v.0, p.1 + v.1);
    if Along(grid, p, v, q) && q != p {
      var j: nat :| Reached(grid, p, v, j) && Shift(p, v, j) == q;
      assert j != 0;
      ShiftNext(p, v, j - 1);
      forall i: nat | i <= j - 1
        ensures InBounds(grid, Shift(n, v, i))
      {
        ShiftNext(p, v, i);
      }
      assert Reached(grid, n, v, j - 1);
    }
    if q == p {
      assert Shift(p, v, 0) == p;
      assert Reached(grid, p, v, 0);
    }
    if Along(grid, n, v, q) {
      var j: nat :| Reached(grid, n, v, j) && Shift(n, v, j) == q;
      ShiftNext(p, v, j);
      forall i: nat | i <= j + 1
        ensures InBounds(grid, Shift(p, v, i))
      {
        if i == 0 {
          assert Shift(p, v, 0) == p;
        } else {
          ShiftNext(p, v, i - 1);
        }
      }
      assert Reached(grid, p, v, j + 1);
    }
  }

  /** The walk from a cell out of bounds passes nothing. */
  lemma AlongOut(grid: Grid, p: Pos, v: Pos, q: Pos)
    requires |grid| >= 1 && !InBounds(grid, p)
    ensures !Along(grid, p, v, q)
  {
    assert Shift(p, v, 0) == p;

  }

  /** How many more steps the walk can take: it shrinks with every step
      of a nonzero vector. */
  function Room(grid: Grid, p: Pos, v: Pos): nat
    requires |grid| >= 1
  {
    if !InBounds(grid, p) then 0
    else if v.0 > 0 then |grid[0]| - p.0
    else if v.0 < 0 then p.0 + 1
    else if v.1 > 0 then |grid| - p.1
    else p.1 + 1
  }

  /** The inner `while` of `solvePart2`: from p, every cell passed that is
      not yet `#` is counted and marked. */
  function Walk(grid: Grid, t: Tally, p: Pos, v: Pos): (r: Tally)
    requires |grid| >= 1 && v != (0, 0) && t.answer == |t.marks|
    ensures r.answer == |r.marks|
    ensures forall q :: q in r.marks <==> q in t.marks || (Along(grid, p, v, q) && !Hash(grid, q))
    decreases Room(grid, p, v)
  {
    if !InBounds(grid, p) then
      AlongNone(grid, p, v);
      t
    else
      var t1 := if Marked(grid, t.marks, p) then t else Tally(t.answer + 1, t.marks + {p});
      var n := (p.0 + v.0, p.1 + v.1);
      assert Room(grid, n, v) < Room(grid, p, v);
      var r := Walk(grid, t1, n, v);
      AlongAll(grid, p, v);
      r
  }

  lemma AlongNone(grid: Grid, p: Pos, v: Pos)
    requires |grid| >= 1 && !InBounds(grid, p)
    ensures forall q :: !Along(grid, p, v, q)
  {
    forall q
      ensures !Along(grid, p, v, q)
    {
      AlongOut(grid, p, v, q);
    }
  }

  lemma AlongAll(grid: Grid, p: Pos, v: Pos)
    requires |grid| >= 1 && InBounds(grid, p)
    ensures forall q :: Along(grid, p, v, q) <==> q == p || Along(grid, (p.0 + v.0, p.1 + v.1), v, q)
  {
    forall q
      ensures Along(grid, p, v, q) <==> q == p || Along(grid, (p.0 + v.0, p.1 + v.1), v, q)
    {
      AlongStep(grid, p, v, q);
    }
  }

  /** What `solvePart2` relies on of every entry: its antenna exists and
      its vector is nonzero, so the walk ends. */
  predicate Walkable(grid: Grid, paths: seq<Path>) {
    forall k :: 0 <= k < |paths| ==> paths[k].vec != (0, 0) && CellAt(grid, paths[k].from).Some?
  }

  /** One popped entry: its antenna is marked, then the walk from the
      first antinode on. */
  function Visit(grid: Grid, t: Tally, e: Path): (r: Tally)
    requires |grid| >= 1 && e.vec != (0, 0) && CellAt(grid, e.from).Some? && t.answer == |t.marks|
    ensures r.answer == |r.marks|
    ensures forall q :: q in r.marks <==> q in t.marks || (!Hash(grid, q) && (q == e.from || Along(grid, Target(e), e.vec, q)))
  {
    var t1 := if Marked(grid, t.marks, e.from) then t else Tally(t.answer + 1, t.marks + {e.from});
    Walk(grid, t1, Target(e), e.vec)
  }

  /** Entry k covers q: q is its antenna or on its walk. */
  ghost predicate Covers(grid: Grid, e: Path, q: Pos)
    requires |grid| >= 1
  {
    q == e.from || Along(grid, Target(e), e.vec, q)
  }

  ghost predicate Covered(grid: Grid, paths: seq<Path>, q: Pos)
    requires |grid| >= 1
  {
    exists k :: 0 <= k < |paths| && Covers(grid, paths[k], q)
  }

  /** `solvePart2`: the entries are popped from the end, on the input grid
      itself (part 1 worked on a copy). Every cell covered and not `#` in
      the input is counted once. */
  function Part2(grid: Grid, paths: seq<Path>): (t: Tally)
    requires |grid| >= 1 && Walkable(grid, paths)
    ensures t.answer == |t.marks|
    ensures forall q :: q in t.marks <==> !Hash(grid, q) && Covered(grid, paths, q)
  {
    if |paths| == 0 then Tally(0, {})
    else
      var t := Part2(grid, paths[1..]);
      CoveredFirst(grid, paths);
      Visit(grid, t, paths[0])
  }

  lemma CoveredFirst(grid: Grid, paths: seq<Path>)
    requires |grid| >= 1 && |paths| >= 1
    ensures forall q :: Covered(grid, paths, q) <==> Covered(grid, paths[1..], q) || Covers(grid, paths[0], q)
  {
    forall q | Covered(grid, paths[1..], q)
      ensures Covered(grid, paths, q)
    {
      var k :| 0 <= k < |paths| - 1 && Covers(grid, paths[1..][k], q);
      assert paths[1..][k] == paths[k + 1];
    }
    forall q | Covered(grid, paths, q) && !Covers(grid, paths[0], q)
      ensures Covered(grid, paths[1..], q)
    {
      var k :| 0 <= k < |paths| && Covers(grid, paths[k], q);
      assert k != 0;
      assert paths[1..][k - 1] == paths[k];
    }
  }

  /** Every cell part 1 counts, part 2 counts too: the first antinode is the
      first cell of the walk. So part 1 never exceeds part 2. */
  lemma Part1WithinPart2(grid: Grid, paths: seq<Path>)
    requires |grid| >= 1 && Walkable(grid, paths)
    ensures Part1(grid, paths).marks <= Part2(grid, paths).marks
    ensures Part1(grid, paths).answer <= Part2(grid, paths).answer
  {
    var m1, m2 := Part1(grid, paths).marks, Part2(grid, paths).marks;
    forall q | q in m1
      ensures q in m2
    {
      var k :| 0 <= k < |paths| && Target(paths[k]) == q;
      var e := paths[k];
      assert Shift(Target(e), e.vec, 0) == q;
      assert Reached(grid, Target(e), e.vec, 0);
      assert Covers(grid, e, q);
    }
    SubsetCard(m1, m2);
  }

  lemma {:induction false} SubsetCard<T>(a: set<T>, b: set<T>)
    requires a <= b
    ensures |a| <= |b|
    decreases |a|
  {
    if a != {} {
      var x :| x in a;
      SubsetCard(a - {x}, b - {x});
    }
  }

  /** The entries of `generatePaths` meet what part 2 relies on. */
  lemma GridPathsWalkable(grid: Grid)
    ensures Walkable(grid, GridPaths(grid))
  {
    var paths := GridPaths(grid);
    forall k | 0 <= k < |paths|
      ensures paths[k].vec != (0, 0) && CellAt(grid, paths[k].from).Some?
    {
      PathIsPair(grid, paths[k]);
    }
  }

  /** On a line, x + i*d lies between x and x + j*d for 0 <= i <= j. */
  lemma Between(x: int, d: int, i: nat, j: nat)
    requires i <= j
    ensures d >= 0 ==> x <= x + i * d <= x + j * d
    ensures d < 0 ==> x + j * d <= x + i * d <= x
  {
    assert j * d - i * d == (j - i) * d;
    if d >= 0 {
      assert (j - i) * d >= 0 && i * d >= 0;
    } else {
      assert (j - i) * d <= 0 && i * d <= 0;
    }
  }

  /** The grid's bounds are a rectangle: a walk that starts and ends in
      bounds stays in bounds between. */
  lemma Convex(grid: Grid, p: Pos, v: Pos, i: nat, j: nat)
    requires |grid| >= 1 && i <= j && InBounds(grid, p) && InBounds(grid, Shift(p, v, j))
    ensures InBounds(grid, Shift(p, v, i))
  {
    Between(p.0, v.0, i, j);
    Between(p.1, v.1, i, j);
  }

  /** On a grid with no row wider than the first, entry e covers exactly
      the in-bounds cells its antenna plus a whole number of its vectors
      reaches. */
  lemma CoversLine(grid: Grid, e: Path, q: Pos)
    requires Bounded(grid) && CellAt(grid, e.from).Some?
    ensures Covers(grid, e, q) <==> InBounds(grid, q) && exists j: nat :: Shift(e.from, e.vec, j) == q
  {
    var p, v := e.from, e.vec;
    assert InBounds(grid, p);
    assert Shift(p, v, 0) == p;
    if Along(grid, Target(e), v, q) {
      var j: nat :| Reached(grid, Target(e), v, j) && Shift(Target(e), v, j) == q;
      ShiftNext(p, v, j);
    }
    if InBounds(grid, q) && exists j: nat :: Shift(p, v, j) == q {
      var j: nat :| Shift(p, v, j) == q;
      if j > 0 {
        LineReached(grid, p, v, j);
        ShiftNext(p, v, j - 1);
        assert Along(grid, Target(e), v, q);
      }
    }
  }

  lemma LineReached(grid: Grid, p: Pos, v: Pos, j: nat)
    requires |grid| >= 1 && j >= 1 && InBounds(grid, p) && InBounds(grid, Shift(p, v, j))
    ensures Reached(grid, (p.0 + v.0, p.1 + v.1), v, j - 1)
  {
    var n := (p.0 + v.0, p.1 + v.1);
    forall i: nat | i <= j - 1
      ensures InBounds(grid, Shift(n, v, i))
    {
      ShiftNext(p, v, i);
      Convex(grid, p, v, i + 1, j);
    }
  }

  /** The puzzle's resonant antinode: a whole number of pair vectors from
      one antenna of a same-frequency pair. */
  ghost predicate Resonant(grid: Grid, q: Pos) {
    exists a, b, j: nat :: SameFrequency(grid, a, b) && Shift(a, Sub(a, b), j) == q
  }

  /** On a grid with no row wider than the first (the puzzle's grid, with
      or without the empty row after a final line break) part 2 counts
      exactly the in-bounds resonant antinodes that are not `#` in the
      input, each once. */
  lemma Part2Antinodes(grid: Grid, q: Pos)
    requires Bounded(grid)
    ensures Walkable(grid, GridPaths(grid))
    ensures q in Part2(grid, GridPaths(grid)).marks <==> InBounds(grid, q) && !Hash(grid, q) && Resonant(grid, q)
  {
    var paths := GridPaths(grid);
    GridPathsWalkable(grid);
    GridPathsPairs(grid);
    if Covered(grid, paths, q) {
      CoveredResonant(grid, paths, q);
    }
    if InBounds(grid, q) && Resonant(grid, q) {
      ResonantCovered(grid, paths, q);
    }
  }

  lemma CoveredResonant(grid: Grid, paths: seq<Path>, q: Pos)
    requires Bounded(grid) && Walkable(grid, paths) && PairsOf(grid, paths) && Covered(grid, paths, q)
    ensures InBounds(grid, q) && Resonant(grid, q)
  {
    var k :| 0 <= k < |paths| && Covers(grid, paths[k], q);
    var e := paths[k];
    assert e in paths;
    CoversLine(grid, e, q);
    var j: nat :| Shift(e.from, e.vec, j) == q;
    var b := Sub(e.from, e.vec);
    SubSub(e.from, b);
    assert SameFrequency(grid, e.from, b) && Shift(e.from, Sub(e.from, b), j) == q;
  }

  lemma ResonantCovered(grid: Grid, paths: seq<Path>, q: Pos)
    requires Bounded(grid) && PairsOf(grid, paths) && InBounds(grid, q) && Resonant(grid, q)
    ensures Covered(grid, paths, q)
  {
    var a, b, j: nat :| SameFrequency(grid, a, b) && Shift(a, Sub(a, b), j) == q;
    var e := Path(a, Sub(a, b));
    SubSub(a, b);
    assert e in paths;
    var k :| 0 <= k < |paths| && paths[k] == e;
    CoversLine(grid, e, q);
    assert Covers(grid, paths[k], q);
  }

  /** Both answers for the puzzle input: part 1 never exceeds part 2. */
  function Solve(input: string): (r: (nat, nat))
    ensures r.0 <= r.1
  {
    var grid := Split(input, '\n');
    var paths := GridPaths(grid);
    GridPathsWalkable(grid);
    Part1WithinPart2(grid, paths);
    (Part1(grid, paths).answer, Part2(grid, paths).answer)
  }
}
