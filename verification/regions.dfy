/** Garden regions (day_12/solution.js): a flood fill splits a grid of labels
    into 4-connected same-label regions; each region has an area, a list of
    boundary edges (its perimeter) and a number of straight sides, found by
    sorting each direction's edges and counting the breaks between them. */
module Regions {
  import opened Sorting
  import opened Plane
  import opened Text

  /** The parsed input: one row of characters per line. */
  type Grid = seq<seq<char>>

  /** `parseInput`: the trimmed input cut into lines, each line a row of
      characters; joining the rows with line breaks gives the trimmed input
      back. */
  function ParseInput(input: string): (g: Grid)
    ensures |g| >= 1
    ensures forall r :: 0 <= r < |g| ==> '\n' !in g[r]
    ensures Join(g, '\n') == Trim(input)
  {
    JoinSplit(Trim(input), '\n');
    Split(Trim(input), '\n')
  }

  /** Every row as long as the first. The source never checks this; its
      bounds test reads the width from the first row only. */
  predicate Rectangular(g: Grid) {
    |g| > 0 && forall r :: 0 <= r < |g| ==> |g[r]| == |g[0]|
  }

  /** The four entries of `_DIRS`, in their order: down, right, up, left. */
  datatype Dir = Down | Right | Up | Left

  const Directions: seq<Dir> := [Down, Right, Up, Left]

  function DX(d: Dir): int {
    match d
    case Right => 1
    case Left => -1
    case _ => 0
  }

  function DY(d: Dir): int {
    match d
    case Down => 1
    case Up => -1
    case _ => 0
  }

  function Opposite(d: Dir): Dir {
    match d
    case Down => Up
    case Up => Down
    case Right => Left
    case Left => Right
  }

  function Step(c: Cell, d: Dir): Cell {
    Cell(c.x + DX(d), c.y + DY(d))
  }

  /** A perimeter entry `[x, y, dir]`: the side of cell (x, y) facing dir. */
  datatype Edge = Edge(x: int, y: int, dir: Dir)

  function EdgeCell(e: Edge): Cell {
    Cell(e.x, e.y)
  }

  /** `isWithinBounds`: the width is taken from the first row. */
  predicate InBounds(g: Grid, c: Cell)
    requires |g| > 0
  {
    0 <= c.x < |g[0]| && 0 <= c.y < |g|
  }

  function Label(g: Grid, c: Cell): char
    requires Rectangular(g) && InBounds(g, c)
  {
    g[c.y][c.x]
  }

  /** The test of line 66: the neighbour in d is outside the grid or holds
      another label. */
  predicate IsBoundary(g: Grid, c: Cell, d: Dir)
    requires Rectangular(g) && InBounds(g, c)
  {
    !InBounds(g, Step(c, d)) || Label(g, Step(c, d)) != Label(g, c)
  }

  ghost function AllCells(g: Grid): set<Cell>
    requires |g| > 0
  {
    RectCells(|g[0]|, |g|)
  }

  lemma AllCellsMember(g: Grid, c: Cell)
    requires |g| > 0
    ensures c in AllCells(g) <==> InBounds(g, c)
  {
    RectCellsMember(|g[0]|, |g|, c);
  }

  /** No same-label neighbour of a cell of s lies outside s. */
  ghost predicate Closed(g: Grid, s: set<Cell>)
    requires Rectangular(g)
  {
    forall c, d :: c in s && InBounds(g, c) && !IsBoundary(g, c, d) ==> Step(c, d) in s
  }

  predicate NoDup<T(==)>(s: seq<T>) {
    forall i, j :: 0 <= i < j < |s| ==> s[i] != s[j]
  }

  lemma NoDupAppend<T>(a: seq<T>, b: seq<T>)
    requires NoDup(a) && NoDup(b)
    requires forall x :: x in a ==> x !in b
    ensures NoDup(a + b)
  {
    var ab := a + b;
    forall i, j | 0 <= i < j < |ab|
      ensures ab[i] != ab[j]
    {
      if i < |a| && j >= |a| {
        assert ab[i] in a && ab[j] == b[j - |a|];
      }
    }
  }

  /** One pass of the inner `for (let dir of _DIRS)` loop over the cell c:
      an edge for each direction in ds whose neighbour is a boundary, and the
      neighbour to push otherwise, both in the order of ds. */
  function Visit(g: Grid, c: Cell, ds: seq<Dir>): (r: (seq<Edge>, seq<Cell>))
    requires Rectangular(g) && InBounds(g, c)
    ensures forall e :: e in r.0 <==> e.dir in ds && EdgeCell(e) == c && IsBoundary(g, c, e.dir)
    ensures forall d :: d in ds && !IsBoundary(g, c, d) ==> Step(c, d) in r.1
    ensures forall i :: 0 <= i < |r.1| ==> InBounds(g, r.1[i]) && Label(g, r.1[i]) == Label(g, c)
    ensures NoDup(ds) ==> NoDup(r.0)
  {
    if |ds| == 0 then ([], [])
    else
      var rest := Visit(g, c, ds[1..]);
      var d := ds[0];
      assert forall x :: x in ds <==> x == d || x in ds[1..];
      if IsBoundary(g, c, d) then
        assert NoDup(ds) ==> d !in ds[1..];
        ([Edge(c.x, c.y, d)] + rest.0, rest.1)
      else
        (rest.0, [Step(c, d)] + rest.1)
  }

  lemma StepBack(c: Cell, d: Dir)
    ensures Step(Step(c, d), Opposite(d)) == c
    ensures Step(c, d) != c
  {
  }

  /** Every same-label neighbour of a region cell is already seen, in the
      region, or still on the stack. */
  ghost predicate Frontier(g: Grid, seen: set<Cell>, region: set<Cell>, stack: seq<Cell>)
    requires Rectangular(g)
  {
    forall c, d :: c in region && InBounds(g, c) && !IsBoundary(g, c, d) ==>
      Step(c, d) in seen || Step(c, d) in region || Step(c, d) in stack
  }

  /** The recorded edges are exactly the boundary edges of the region's cells. */
  ghost predicate EdgesOf(g: Grid, region: set<Cell>, edges: seq<Edge>)
    requires Rectangular(g)
  {
    forall e :: e in edges <==> EdgeCell(e) in region && InBounds(g, EdgeCell(e)) && IsBoundary(g, EdgeCell(e), e.dir)
  }

  /** Every cell of the sequence is in bounds and carries label t. */
  predicate AllLabelled(g: Grid, cells: seq<Cell>, t: char)
    requires Rectangular(g)
  {
    forall i :: 0 <= i < |cells| ==> InBounds(g, cells[i]) && Label(g, cells[i]) == t
  }

  lemma LabelledAppend(g: Grid, a: seq<Cell>, b: seq<Cell>, t: char)
    requires Rectangular(g) && AllLabelled(g, a, t) && AllLabelled(g, b, t)
    ensures AllLabelled(g, a + b, t)
  {
  }

  lemma FrontierSkip(g: Grid, seen: set<Cell>, region: set<Cell>, stack: seq<Cell>)
    requires Rectangular(g) && |stack| > 0
    requires Frontier(g, seen, region, stack)
    requires stack[|stack| - 1] in seen || stack[|stack| - 1] in region
    ensures Frontier(g, seen, region, stack[..|stack| - 1])
  {
    assert forall n :: n in stack ==> n in stack[..|stack| - 1] || n == stack[|stack| - 1];
  }

  lemma FrontierAdd(g: Grid, seen: set<Cell>, region: set<Cell>, stack: seq<Cell>, found: (seq<Edge>, seq<Cell>))
    requires Rectangular(g) && |stack| > 0 && InBounds(g, stack[|stack| - 1])
    requires Frontier(g, seen, region, stack)
    requires found == Visit(g, stack[|stack| - 1], Directions)
    ensures Frontier(g, seen, region + {stack[|stack| - 1]}, stack[..|stack| - 1] + found.1)
  {
    var c := stack[|stack| - 1];
    assert forall n :: n in stack ==> n in stack[..|stack| - 1] || n == c;
    forall x, d | x in region + {c} && InBounds(g, x) && !IsBoundary(g, x, d)
      ensures Step(x, d) in seen || Step(x, d) in region + {c} || Step(x, d) in stack[..|stack| - 1] + found.1
    {
      if x == c {
        assert d in Directions;
        assert Step(c, d) in found.1;
      }
    }
  }

  lemma EdgesAdd(g: Grid, region: set<Cell>, edges: seq<Edge>, c: Cell, found: (seq<Edge>, seq<Cell>))
    requires Rectangular(g) && InBounds(g, c) && c !in region
    requires EdgesOf(g, region, edges) && NoDup(edges)
    requires found == Visit(g, c, Directions)
    ensures EdgesOf(g, region + {c}, edges + found.0)
    ensures NoDup(edges + found.0)
  {
    assert NoDup(Directions);
    NoDupAppend(edges, found.0);
    forall e | EdgeCell(e) == c && InBounds(g, c) && IsBoundary(g, c, e.dir)
      ensures e in found.0
    {
      assert e.dir in Directions by { match e.dir { case Down => case Right => case Up => case Left => } }
    }
  }

  /** Lines 55 and 57 keep `x + y * 10000` in `seen` rather than the cell. */
  const SeenScale := 10000

  /** On a grid at most 10000 wide the numbers in `seen` stand for its
      cells: `seen.has` answers for exactly the cells the model's `seen`
      holds. */
  lemma SeenAsNumbers(g: Grid, seen: set<Cell>, c: Cell)
    requires Rectangular(g) && |g[0]| <= SeenScale && seen <= AllCells(g) && InBounds(g, c)
    ensures Key(c, SeenScale) in Keys(seen, SeenScale) <==> c in seen
  {
    forall d | d in seen
      ensures 0 <= d.x < SeenScale
    {
      AllCellsMember(g, d);
    }
    KeysMember(seen, SeenScale, c);
  }

  /** The flood fill of lines 49-72, started at `start` with the cells already
      in `seen`. The stack is popped from the end; a cell found in `seen` is
      skipped; a new cell joins the region, records its boundary edges and
      pushes its same-label neighbours. `region` is the set of cells the
      fill adds to `seen`. */
  method FloodFill(g: Grid, start: Cell, seen: set<Cell>)
    returns (area: nat, edges: seq<Edge>, region: set<Cell>)
    requires Rectangular(g) && InBounds(g, start)
    requires seen <= AllCells(g) && Closed(g, seen)
    ensures region !! seen && region <= AllCells(g)
    ensures area == |region|
    ensures start in seen ==> region == {} && edges == []
    ensures start !in seen ==> start in region
    ensures forall c :: c in region ==> InBounds(g, c) && Label(g, c) == Label(g, start)
    ensures Closed(g, region) && Closed(g, seen + region)
    ensures EdgesOf(g, region, edges) && NoDup(edges)
    ensures forall c :: c in region ==> Reachable(g, start, c)
  {
    ReachSelf(g, start);
    area, edges, region := FillLoop(g, seen, start, [start], 0, [], {});
    FillDone(g, seen, start, area, edges, region);
  }

  /** The `while (queue.length)` loop: it runs until the stack is empty. */
  method FillLoop(g: Grid, seen: set<Cell>, start: Cell, stack0: seq<Cell>, area0: nat, edges0: seq<Edge>, region0: set<Cell>)
    returns (area: nat, edges: seq<Edge>, region: set<Cell>)
    requires Rectangular(g) && InBounds(g, start) && seen <= AllCells(g)
    requires FillState(g, seen, start, stack0, area0, edges0, region0)
    ensures FillState(g, seen, start, [], area, edges, region)
  {
    var stack := stack0;
    area, edges, region := area0, edges0, region0;
    while |stack| > 0
      invariant FillState(g, seen, start, stack, area, edges, region)
      decreases |AllCells(g) - (seen + region)|, |stack|
    {
      var c := stack[|stack| - 1];
      if c in seen || c in region {
        FillSkip(g, seen, start, stack, area, edges, region);
        stack := stack[..|stack| - 1];
        continue;
      }
      var found := Visit(g, c, Directions);
      FillAdd(g, seen, start, stack, area, edges, region, c, found);
      region := region + {c};
      area := area + 1;
      edges := edges + found.0;
      stack := stack[..|stack| - 1] + found.1;
    }
  }

  /** With the stack empty the region is closed, next to `seen` too. */
  lemma FillDone(g: Grid, seen: set<Cell>, start: Cell, area: nat, edges: seq<Edge>, region: set<Cell>)
    requires Rectangular(g) && InBounds(g, start) && Closed(g, seen)
    requires FillState(g, seen, start, [], area, edges, region)
    ensures region !! seen && region <= AllCells(g) && area == |region|
    ensures start in seen ==> region == {} && edges == []
    ensures start !in seen ==> start in region
    ensures forall c :: c in region ==> InBounds(g, c) && Label(g, c) == Label(g, start)
    ensures Closed(g, region) && Closed(g, seen + region)
    ensures EdgesOf(g, region, edges) && NoDup(edges)
    ensures forall c :: c in region ==> Reachable(g, start, c)
  {
    CloseRegion(g, seen, region);
  }

  /** What the fill knows between two pops: the stack holds cells of the
      start's label, the region is a set of such cells outside `seen` with
      exactly `edges` as boundary edges, and every same-label neighbour of
      the region is seen, in it or on the stack. */
  ghost predicate FillState(g: Grid, seen: set<Cell>, start: Cell, stack: seq<Cell>, area: nat, edges: seq<Edge>, region: set<Cell>)
    requires Rectangular(g) && InBounds(g, start)
  {
    var t := Label(g, start);
    && AllLabelled(g, stack, t)
    && region !! seen && region <= AllCells(g) && area == |region|
    && (forall c :: c in region ==> InBounds(g, c) && Label(g, c) == t)
    && (start in seen ==> region == {} && edges == [] && (stack == [start] || stack == []))
    && (start !in seen ==> start in region || (stack == [start] && region == {}))
    && Frontier(g, seen, region, stack)
    && EdgesOf(g, region, edges) && NoDup(edges)
    && ReachedFrom(g, start, region, stack)
  }

  /** The region and the stack hold only cells reachable from the start. */
  ghost predicate ReachedFrom(g: Grid, start: Cell, region: set<Cell>, stack: seq<Cell>)
    requires Rectangular(g)
  {
    (forall c :: c in region ==> Reachable(g, start, c)) && (forall k :: 0 <= k < |stack| ==> Reachable(g, start, stack[k]))
  }

  lemma ReachSelf(g: Grid, c: Cell)
    requires Rectangular(g)
    ensures Reachable(g, c, c)
  {
    assert SameLabelWalk(g, c, []) && WalkEnd(c, []) == c;
  }

  /** Every neighbour `Visit` pushes is a same-label step away. */
  lemma {:induction false} VisitPushes(g: Grid, c: Cell, ds: seq<Dir>)
    requires Rectangular(g) && InBounds(g, c)
    ensures forall n :: n in Visit(g, c, ds).1 ==> exists d :: !IsBoundary(g, c, d) && n == Step(c, d)
    decreases |ds|
  {
    if |ds| > 0 {
      VisitPushes(g, c, ds[1..]);
    }
  }

  /** Pushing the same-label neighbours of a reachable cell keeps every
      stacked cell reachable. */
  lemma ReachedPush(g: Grid, start: Cell, region: set<Cell>, stack: seq<Cell>)
    requires Rectangular(g) && |stack| > 0 && InBounds(g, stack[|stack| - 1])
    requires ReachedFrom(g, start, region, stack)
    ensures var c := stack[|stack| - 1];
      ReachedFrom(g, start, region + {c}, stack[..|stack| - 1] + Visit(g, c, Directions).1)
  {
    var c := stack[|stack| - 1];
    var pushed := Visit(g, c, Directions).1;
    var next := stack[..|stack| - 1] + pushed;
    VisitPushes(g, c, Directions);
    assert Reachable(g, start, c);
    forall k | 0 <= k < |next|
      ensures Reachable(g, start, next[k])
    {
      if k >= |stack| - 1 {
        var n := pushed[k - (|stack| - 1)];
        assert n in pushed;
        var d :| !IsBoundary(g, c, d) && n == Step(c, d);
        ReachNeighbour(g, start, c, d);
      } else {
        assert next[k] == stack[k];
      }
    }
  }

  /** Popping a cell that is seen already changes nothing else. */
  lemma FillSkip(g: Grid, seen: set<Cell>, start: Cell, stack: seq<Cell>, area: nat, edges: seq<Edge>, region: set<Cell>)
    requires Rectangular(g) && InBounds(g, start) && |stack| > 0
    requires FillState(g, seen, start, stack, area, edges, region)
    requires stack[|stack| - 1] in seen || stack[|stack| - 1] in region
    ensures FillState(g, seen, start, stack[..|stack| - 1], area, edges, region)
  {
    FrontierSkip(g, seen, region, stack);
  }

  /** Popping a new cell adds it to the region with its edges and pushes
      its same-label neighbours; fewer cells are left unseen. */
  lemma FillAdd(g: Grid, seen: set<Cell>, start: Cell, stack: seq<Cell>, area: nat, edges: seq<Edge>, region: set<Cell>,
                 c: Cell, found: (seq<Edge>, seq<Cell>))
    requires Rectangular(g) && InBounds(g, start) && |stack| > 0 && seen <= AllCells(g)
    requires FillState(g, seen, start, stack, area, edges, region)
    requires c == stack[|stack| - 1] && c !in seen && c !in region
    requires found == Visit(g, c, Directions)
    ensures FillState(g, seen, start, stack[..|stack| - 1] + found.1, area + 1, edges + found.0, region + {c})
    ensures AllCells(g) - (seen + (region + {c})) < AllCells(g) - (seen + region)
  {
    var t := Label(g, start);
    assert InBounds(g, c) && Label(g, c) == t;
    AllCellsMember(g, c);
    FrontierAdd(g, seen, region, stack, found);
    EdgesAdd(g, region, edges, c, found);
    ReachedPush(g, start, region, stack);
    LabelledAppend(g, stack[..|stack| - 1], found.1, t);
  }

  /** A finished fill (empty stack) next to a closed `seen` is closed itself:
      a same-label neighbour found in `seen` would have pulled the region's
      cell into `seen` too. */
  lemma CloseRegion(g: Grid, seen: set<Cell>, region: set<Cell>)
    requires Rectangular(g) && Closed(g, seen) && region !! seen
    requires Frontier(g, seen, region, [])
    ensures Closed(g, region) && Closed(g, seen + region)
  {
    forall c, d | c in region && InBounds(g, c) && !IsBoundary(g, c, d)
      ensures Step(c, d) in region
    {
      var n := Step(c, d);
      StepBack(c, d);
      assert n in seen ==> !IsBoundary(g, n, Opposite(d)) && c in seen;
    }
  }

  /** Where the moves ds lead from c. */
  function WalkEnd(c: Cell, ds: seq<Dir>): Cell
    decreases |ds|
  {
    if |ds| == 0 then c else WalkEnd(Step(c, ds[0]), ds[1..])
  }

  /** The moves ds from c never cross a boundary: each one goes to a
      neighbour on the grid with the same label. */
  ghost predicate SameLabelWalk(g: Grid, c: Cell, ds: seq<Dir>)
    requires Rectangular(g)
    decreases |ds|
  {
    |ds| == 0 || (InBounds(g, c) && !IsBoundary(g, c, ds[0]) && SameLabelWalk(g, Step(c, ds[0]), ds[1..]))
  }

  /** b can be reached from a through same-label neighbours. */
  ghost predicate Reachable(g: Grid, a: Cell, b: Cell)
    requires Rectangular(g)
  {
    exists ds :: SameLabelWalk(g, a, ds) && WalkEnd(a, ds) == b
  }

  /** s is a whole same-label component: from each of its cells exactly the
      cells of s can be reached. */
  ghost predicate Component(g: Grid, s: set<Cell>)
    requires Rectangular(g)
  {
    forall a, b :: a in s ==> (b in s <==> Reachable(g, a, b))
  }

  lemma {:induction false} EndAppend(c: Cell, a: seq<Dir>, b: seq<Dir>)
    ensures WalkEnd(c, a + b) == WalkEnd(WalkEnd(c, a), b)
    decreases |a|
  {
    if |a| > 0 {
      assert (a + b)[1..] == a[1..] + b;
      EndAppend(Step(c, a[0]), a[1..], b);
    } else {
      assert a + b == b;
    }
  }

  lemma {:induction false} WalkAppend(g: Grid, c: Cell, a: seq<Dir>, b: seq<Dir>)
    requires Rectangular(g) && SameLabelWalk(g, c, a) && SameLabelWalk(g, WalkEnd(c, a), b)
    ensures SameLabelWalk(g, c, a + b)
    decreases |a|
  {
    if |a| > 0 {
      assert (a + b)[1..] == a[1..] + b;
      WalkAppend(g, Step(c, a[0]), a[1..], b);
    } else {
      assert a + b == b;
    }
  }

  /** Reachability chains. */
  lemma ReachTrans(g: Grid, a: Cell, b: Cell, c: Cell)
    requires Rectangular(g) && Reachable(g, a, b) && Reachable(g, b, c)
    ensures Reachable(g, a, c)
  {
    var p :| SameLabelWalk(g, a, p) && WalkEnd(a, p) == b;
    var q :| SameLabelWalk(g, b, q) && WalkEnd(b, q) == c;
    WalkAppend(g, a, p, q);
    EndAppend(a, p, q);
  }

  /** A same-label neighbour of a reachable cell is reachable. */
  lemma ReachNeighbour(g: Grid, a: Cell, b: Cell, d: Dir)
    requires Rectangular(g) && Reachable(g, a, b) && InBounds(g, b) && !IsBoundary(g, b, d)
    ensures Reachable(g, a, Step(b, d))
  {
    assert SameLabelWalk(g, Step(b, d), []);
    WalkOne(b, d);
    assert SameLabelWalk(g, b, [d]);
    ReachTrans(g, a, b, Step(b, d));
  }

  lemma WalkOne(c: Cell, d: Dir)
    ensures WalkEnd(c, [d]) == Step(c, d)
  {
    assert [d][1..] == [];
  }

  /** The moves of ds undone, last first. */
  function Back(ds: seq<Dir>): seq<Dir>
    decreases |ds|
  {
    if |ds| == 0 then [] else Back(ds[1..]) + [Opposite(ds[0])]
  }

  /** Undoing a same-label walk is a same-label walk back to its start. */
  lemma {:induction false} WalkBack(g: Grid, c: Cell, ds: seq<Dir>)
    requires Rectangular(g) && SameLabelWalk(g, c, ds)
    ensures SameLabelWalk(g, WalkEnd(c, ds), Back(ds)) && WalkEnd(WalkEnd(c, ds), Back(ds)) == c
    decreases |ds|
  {
    if |ds| > 0 {
      var d := ds[0];
      var c2 := Step(c, d);
      WalkBack(g, c2, ds[1..]);
      var e := WalkEnd(c, ds);
      assert e == WalkEnd(c2, ds[1..]);
      StepBack(c, d);
      assert SameLabelWalk(g, c, []);
      WalkOne(c2, Opposite(d));
      assert SameLabelWalk(g, c2, [Opposite(d)]);
      WalkAppend(g, e, Back(ds[1..]), [Opposite(d)]);
      EndAppend(e, Back(ds[1..]), [Opposite(d)]);
    }
  }

  lemma ReachBack(g: Grid, a: Cell, b: Cell)
    requires Rectangular(g) && Reachable(g, a, b)
    ensures Reachable(g, b, a)
  {
    var p :| SameLabelWalk(g, a, p) && WalkEnd(a, p) == b;
    WalkBack(g, a, p);
  }

  /** A same-label walk never leaves a closed set. */
  lemma {:induction false} WalkStaysIn(g: Grid, s: set<Cell>, c: Cell, ds: seq<Dir>)
    requires Rectangular(g) && Closed(g, s) && c in s && SameLabelWalk(g, c, ds)
    ensures WalkEnd(c, ds) in s
    decreases |ds|
  {
    if |ds| > 0 {
      WalkStaysIn(g, s, Step(c, ds[0]), ds[1..]);
    }
  }

  /** A closed set whose cells are all reachable from one of its cells is a
      whole component. */
  lemma ComponentOf(g: Grid, s: set<Cell>, a0: Cell)
    requires Rectangular(g) && Closed(g, s) && a0 in s
    requires forall c :: c in s ==> Reachable(g, a0, c)
    ensures Component(g, s)
  {
    forall a, b | a in s
      ensures b in s <==> Reachable(g, a, b)
    {
      if b in s {
        ReachBack(g, a0, a);
        ReachTrans(g, a, a0, b);
      }
      if Reachable(g, a, b) {
        var p :| SameLabelWalk(g, a, p) && WalkEnd(a, p) == b;
        WalkStaysIn(g, s, a, p);
      }
    }
  }

  /** How far c lies in direction d. */
  function Reach(c: Cell, d: Dir): int {
    DX(d) * c.x + DY(d) * c.y
  }

  lemma {:induction false} ExtremeCell(s: set<Cell>, d: Dir) returns (m: Cell)
    requires s != {}
    ensures m in s && forall c :: c in s ==> Reach(c, d) <= Reach(m, d)
    decreases |s|
  {
    var x :| x in s;
    if s == {x} {
      m := x;
    } else {
      var m' := ExtremeCell(s - {x}, d);
      m := if Reach(x, d) > Reach(m', d) then x else m';
    }
  }

  predicate HasFacing(edges: seq<Edge>, d: Dir) {
    exists i :: 0 <= i < |edges| && edges[i].dir == d
  }

  /** A nonempty closed region has a boundary edge facing every direction:
      the one of its cell lying farthest that way. So every direction group
      of lines 113-115 is nonempty and `units[0]` is always defined. */
  lemma EdgeEachDirection(g: Grid, region: set<Cell>, edges: seq<Edge>, d: Dir)
    requires Rectangular(g) && region != {} && region <= AllCells(g) && Closed(g, region)
    requires EdgesOf(g, region, edges)
    ensures HasFacing(edges, d)
  {
    var m := ExtremeCell(region, d);
    AllCellsMember(g, m);
    var n := Step(m, d);
    ReachStep(m, d);
    assert n !in region;
    assert IsBoundary(g, m, d) by {
      assert !IsBoundary(g, m, d) ==> n in region;
    }
    var e := Edge(m.x, m.y, d);
    assert EdgeCell(e) == m;
    assert e in edges;
    var i :| 0 <= i < |edges| && edges[i] == e;
  }

  /** One step in a direction reaches one further that way. */
  lemma ReachStep(c: Cell, d: Dir)
    ensures Reach(Step(c, d), d) == Reach(c, d) + 1
  {
    match d
    case Down =>
    case Right =>
    case Up =>
    case Left =>
  }

  /** A region as line 77 stores it (`{region, perimeter}` under its label),
      with the set of its cells added. */
  datatype Region = Region(kind: char, area: nat, cells: set<Cell>, edges: seq<Edge>)

  /** A whole same-label component with its exact list of boundary edges. */
  ghost predicate IsRegion(g: Grid, r: Region)
    requires Rectangular(g)
  {
    && r.cells != {} && r.cells <= AllCells(g) && r.area == |r.cells|
    && (forall c :: c in r.cells ==> InBounds(g, c) && Label(g, c) == r.kind)
    && Closed(g, r.cells) && Component(g, r.cells)
    && EdgesOf(g, r.cells, r.edges) && NoDup(r.edges)
    && (forall d :: HasFacing(r.edges, d))
  }

  ghost function CellsOf(rs: seq<Region>): set<Cell> {
    if |rs| == 0 then {} else CellsOf(rs[..|rs| - 1]) + rs[|rs| - 1].cells
  }

  function TotalArea(rs: seq<Region>): nat {
    if |rs| == 0 then 0 else TotalArea(rs[..|rs| - 1]) + rs[|rs| - 1].area
  }

  lemma {:induction false} CellsOfMember(rs: seq<Region>, i: nat)
    requires i < |rs|
    ensures rs[i].cells <= CellsOf(rs)
  {
    if i < |rs| - 1 {
      CellsOfMember(rs[..|rs| - 1], i);
    }
  }

  ghost predicate Disjoint(rs: seq<Region>) {
    forall i, j :: 0 <= i < j < |rs| ==> rs[i].cells !! rs[j].cells
  }

  /** The state between two fills: the stored regions are exactly the cells seen so far. */
  ghost predicate Discovered(g: Grid, seen: set<Cell>, regions: seq<Region>)
    requires Rectangular(g)
  {
    && seen <= AllCells(g) && Closed(g, seen)
    && seen == CellsOf(regions) && TotalArea(regions) == |seen|
    && (forall i :: 0 <= i < |regions| ==> IsRegion(g, regions[i]))
    && Disjoint(regions)
  }

  /** Storing the result of a fill that found a new region keeps `Discovered`. */
  lemma StoreRegion(g: Grid, seen: set<Cell>, regions: seq<Region>, r: Region, start: Cell)
    requires Rectangular(g) && Discovered(g, seen, regions)
    requires start in r.cells && forall c :: c in r.cells ==> Reachable(g, start, c)
    requires r.cells != {} && r.cells <= AllCells(g) && r.area == |r.cells| && r.cells !! seen
    requires forall c :: c in r.cells ==> InBounds(g, c) && Label(g, c) == r.kind
    requires Closed(g, r.cells) && Closed(g, seen + r.cells)
    requires EdgesOf(g, r.cells, r.edges) && NoDup(r.edges)
    ensures Discovered(g, seen + r.cells, regions + [r])
  {
    NewRegion(g, r, start);
    forall i | 0 <= i < |regions|
      ensures regions[i].cells !! r.cells
    {
      CellsOfMember(regions, i);
    }
    RegionsSnoc(regions, r);
  }

  lemma RegionsSnoc(rs: seq<Region>, r: Region)
    ensures CellsOf(rs + [r]) == CellsOf(rs) + r.cells
    ensures TotalArea(rs + [r]) == TotalArea(rs) + r.area
    ensures forall i :: 0 <= i < |rs| ==> (rs + [r])[i] == rs[i]
    ensures (rs + [r])[|rs|] == r
  {
    assert (rs + [r])[..|rs|] == rs;
  }

  /** What a fill from `start` finds is a region. */
  lemma NewRegion(g: Grid, r: Region, start: Cell)
    requires Rectangular(g)
    requires start in r.cells && forall c :: c in r.cells ==> Reachable(g, start, c)
    requires r.cells != {} && r.cells <= AllCells(g) && r.area == |r.cells|
    requires forall c :: c in r.cells ==> InBounds(g, c) && Label(g, c) == r.kind
    requires Closed(g, r.cells)
    requires EdgesOf(g, r.cells, r.edges) && NoDup(r.edges)
    ensures IsRegion(g, r)
  {
    ComponentOf(g, r.cells, start);
    forall d
      ensures HasFacing(r.edges, d)
    {
      EdgeEachDirection(g, r.cells, r.edges, d);
    }
  }

  /** Lines 46-81: every cell starts a fill in row-major order; a fill that
      finds something is stored as a region. The regions are maximal
      same-label regions, pairwise disjoint, they cover the grid, and their
      areas add up to rows times columns. */
  method FindRegions(g: Grid) returns (regions: seq<Region>)
    requires Rectangular(g)
    ensures forall i :: 0 <= i < |regions| ==> IsRegion(g, regions[i])
    ensures Disjoint(regions)
    ensures CellsOf(regions) == AllCells(g)
    ensures TotalArea(regions) == |g| * |g[0]|
  {
    var seen: set<Cell> := {};
    regions := [];
    for row := 0 to |g|
      invariant Discovered(g, seen, regions)
      invariant Covered(g, seen, row, 0)
    {
      seen, regions := ScanRow(g, row, seen, regions);
    }
    forall c | c in AllCells(g)
      ensures c in seen
    {
      AllCellsMember(g, c);
    }
    RectCellsCard(|g[0]|, |g|);
  }

  /** The column loop of lines 47-80 for one row. */
  method ScanRow(g: Grid, row: nat, seen: set<Cell>, regions: seq<Region>)
    returns (seen2: set<Cell>, regions2: seq<Region>)
    requires Rectangular(g) && row < |g| && Discovered(g, seen, regions)
    requires Covered(g, seen, row, 0)
    ensures Discovered(g, seen2, regions2)
    ensures Covered(g, seen2, row + 1, 0)
  {
    seen2, regions2 := seen, regions;
    for col := 0 to |g[row]|
      invariant Discovered(g, seen2, regions2)
      invariant Covered(g, seen2, row, col)
    {
      ghost var before := seen2;
      seen2, regions2 := StartFill(g, Cell(col, row), seen2, regions2);
      CoveredStep(g, before, seen2, row, col);
    }
    CoveredRow(g, seen2, row);
  }

  /** Every in-bounds cell before (col, row) in row-major order is seen. */
  ghost predicate Covered(g: Grid, seen: set<Cell>, row: nat, col: nat)
    requires |g| > 0
  {
    forall c :: InBounds(g, c) && (c.y < row || (c.y == row && c.x < col)) ==> c in seen
  }

  lemma CoveredStep(g: Grid, seen: set<Cell>, seen2: set<Cell>, row: nat, col: nat)
    requires |g| > 0 && Covered(g, seen, row, col) && seen <= seen2 && Cell(col, row) in seen2
    ensures Covered(g, seen2, row, col + 1)
  {
  }

  lemma CoveredRow(g: Grid, seen: set<Cell>, row: nat)
    requires Rectangular(g) && row < |g| && Covered(g, seen, row, |g[row]|)
    ensures Covered(g, seen, row + 1, 0)
  {
  }

  /** Lines 48-79 for one start cell: fill from it, and store what the
      fill found when it has cells and edges, which a fill with cells
      always has. */
  method StartFill(g: Grid, start: Cell, seen: set<Cell>, regions: seq<Region>)
    returns (seen2: set<Cell>, regions2: seq<Region>)
    requires Rectangular(g) && InBounds(g, start) && Discovered(g, seen, regions)
    ensures Discovered(g, seen2, regions2)
    ensures seen <= seen2 && start in seen2
  {
    var area, edges, region := FloodFill(g, start, seen);
    if area > 0 {
      EdgeEachDirection(g, region, edges, Up);
    }
    if area > 0 && |edges| > 0 {
      var r := Region(g[start.y][start.x], area, region, edges);
      StoreRegion(g, seen, regions, r, start);
      regions2 := regions + [r];
    } else {
      regions2 := regions;
    }
    seen2 := seen + region;
  }

  /** Part 1 (lines 84-91): the sum of area times perimeter. */
  function PerimeterPrice(rs: seq<Region>): int {
    if |rs| == 0 then 0
    else PerimeterPrice(rs[..|rs| - 1]) + rs[|rs| - 1].area * |rs[|rs| - 1].edges|
  }

  method SolvePart1(g: Grid) returns (price: int, regions: seq<Region>)
    requires Rectangular(g)
    ensures forall i :: 0 <= i < |regions| ==> IsRegion(g, regions[i])
    ensures Disjoint(regions) && CellsOf(regions) == AllCells(g)
    ensures price == PerimeterPrice(regions)
  {
    regions := FindRegions(g);
    price := 0;
    for i := 0 to |regions|
      invariant price == PerimeterPrice(regions[..i])
    {
      assert regions[..i + 1][..i] == regions[..i];
      price := price + regions[i].area * |regions[i].edges|;
    }
    assert regions[..|regions|] == regions;
  }

  /** `current.filter(side => side[2] === dir[2])`. */
  function Group(edges: seq<Edge>, d: Dir): (r: seq<Edge>)
    ensures forall e :: e in r <==> e in edges && e.dir == d
    ensures forall i :: 0 <= i < |r| ==> r[i].dir == d
  {
    if |edges| == 0 then []
    else if edges[0].dir == d then [edges[0]] + Group(edges[1..], d)
    else Group(edges[1..], d)
  }

  function EX(e: Edge): int { e.x }

  function EY(e: Edge): int { e.y }

  /** Lines 119-125: an up/down group is sorted by x and then by y, a
      left/right group by y and then by x; both sorts are stable. */
  function Arrange(units: seq<Edge>): seq<Edge>
    requires |units| > 0
  {
    if units[0].dir == Down || units[0].dir == Up then SortBy(SortBy(units, EX), EY)
    else SortBy(SortBy(units, EY), EX)
  }

  /** The arranged group holds the same edges; up and down edges are ordered
      by row and then column, left and right edges by column and then row. */
  lemma ArrangeOrder(units: seq<Edge>)
    requires |units| > 0
    ensures multiset(Arrange(units)) == multiset(units)
    ensures units[0].dir == Down || units[0].dir == Up ==> LexSortedBy(Arrange(units), EY, EX)
    ensures units[0].dir == Left || units[0].dir == Right ==> LexSortedBy(Arrange(units), EX, EY)
  {
    if units[0].dir == Down || units[0].dir == Up {
      TwoStableSortsAreLexicographic(units, EX, EY);
    } else {
      TwoStableSortsAreLexicographic(units, EY, EX);
    }
  }

  /** Where the next edge of the same side would be: one column on for up and
      down edges, one row on for left and right edges. */
  function Next(e: Edge): Cell {
    if e.dir == Down || e.dir == Up then Cell(e.x + 1, e.y) else Cell(e.x, e.y + 1)
  }

  /** The edge just before e on a side: one column back for up and down
      edges, one row back for left and right edges. */
  function Behind(e: Edge): Edge {
    if e.dir == Down || e.dir == Up then Edge(e.x - 1, e.y, e.dir) else Edge(e.x, e.y - 1, e.dir)
  }

  /** The edges that begin a side: no edge facing the same way lies just
      before them. */
  ghost function Starts(edges: seq<Edge>): set<Edge> {
    set e | e in edges && Behind(e) !in edges
  }

  /** The number of sides: a side is a maximal straight run of edges facing
      one way, and each has exactly one first edge. */
  ghost function Sides(edges: seq<Edge>): nat {
    |Starts(edges)|
  }

  /** The sides facing d. */
  ghost function StartsFacing(edges: seq<Edge>, d: Dir): set<Edge> {
    set e | e in edges && e.dir == d && Behind(e) !in edges
  }

  /** The number of neighbouring pairs in units where a side breaks: the
      later edge is not where the earlier one's side would continue. */
  function Breaks(units: seq<Edge>): (n: nat)
    ensures |units| > 0 ==> n < |units|
  {
    if |units| < 2 then 0
    else
      Breaks(units[..|units| - 1])
      + (if EdgeCell(units[|units| - 1]) != Next(units[|units| - 2]) then 1 else 0)
  }

  /** Row of an up or down edge, column of a left or right edge. */
  function Major(e: Edge): int {
    if e.dir == Down || e.dir == Up then e.y else e.x
  }

  /** Column of an up or down edge, row of a left or right edge. */
  function Minor(e: Edge): int {
    if e.dir == Down || e.dir == Up then e.x else e.y
  }

  predicate Before(a: Edge, b: Edge) {
    Major(a) < Major(b) || (Major(a) == Major(b) && Minor(a) < Minor(b))
  }

  /** Edges facing one way, strictly in the order the two sorts give. */
  predicate Ascending(u: seq<Edge>) {
    && (forall i :: 0 <= i < |u| ==> u[i].dir == u[0].dir)
    && (forall i, j :: 0 <= i < j < |u| ==> Before(u[i], u[j]))
  }

  lemma BehindFacts(e: Edge)
    ensures Behind(e).dir == e.dir && Behind(e) != e
    ensures Major(Behind(e)) == Major(e) && Minor(Behind(e)) == Minor(e) - 1
  {
  }

  /** An edge continues the side of an edge facing the same way exactly when
      that edge lies just before it. */
  lemma NextIsBehind(f: Edge, e: Edge)
    requires f.dir == e.dir
    ensures EdgeCell(e) == Next(f) <==> f == Behind(e)
  {
  }

  /** Lines 127-142 on one sorted group: one side for the first edge and a
      new side at every break. On edges facing one way in sorted order,
      that is one side per edge that begins a side. */
  method CountRuns(units: seq<Edge>) returns (count: nat)
    requires |units| > 0
    ensures Ascending(units) ==> count == |Starts(units)|
    ensures count == 1 + Breaks(units)
    ensures 1 <= count <= |units|
  {
    var next := EdgeCell(units[0]);
    count := 1;
    for i := 0 to |units|
      invariant i == 0 ==> count == 1 && next == EdgeCell(units[0])
      invariant i > 0 ==> count == 1 + Breaks(units[..i]) && next == Next(units[i - 1])
    {
      assert units[..i + 1][..i] == units[..i];
      if EdgeCell(units[i]) != next {
        count := count + 1;
      }
      next := Next(units[i]);
    }
    assert units[..|units|] == units;
    if Ascending(units) {
      RunsCount(units);
    }
  }

  /** On sorted edges facing one way, the first edge and every break begin
      a side, and nothing else does. */
  lemma {:induction false} RunsCount(u: seq<Edge>)
    requires |u| > 0 && Ascending(u)
    ensures 1 + Breaks(u) == |Starts(u)|
  {
    var n := |u|;
    if n == 1 {
      BehindFacts(u[0]);
      assert Starts(u) == {u[0]};
    } else {
      var p := u[..n - 1];
      var x := u[n - 1];
      assert Ascending(p);
      RunsCount(p);
      StartsSnoc(u);
      BehindInPrefix(u);
      NextIsBehind(u[n - 2], x);
      assert p[|p| - 1] == u[n - 2];
    }
  }

  /** The last edge of a sorted run joins the sides as a new one exactly
      when its predecessor is not among the earlier edges. */
  lemma StartsSnoc(u: seq<Edge>)
    requires |u| >= 2 && Ascending(u)
    ensures var p, x := u[..|u| - 1], u[|u| - 1];
      x !in p && Starts(u) == Starts(p) + (if Behind(x) in p then {} else {x})
  {
    var p, x := u[..|u| - 1], u[|u| - 1];
    assert forall e :: e in u <==> e in p || e == x by {
      assert u == p + [x];
    }
    forall i | 0 <= i < |p|
      ensures p[i] != x && Behind(p[i]) != x
    {
      assert Before(u[i], x);
      BehindFacts(p[i]);
    }
    BehindFacts(x);
  }

  /** In sorted order, the edge just before the last one on its side can
      only be its immediate predecessor. */
  lemma BehindInPrefix(u: seq<Edge>)
    requires |u| >= 2 && Ascending(u)
    ensures Behind(u[|u| - 1]) in u[..|u| - 1] <==> Behind(u[|u| - 1]) == u[|u| - 2]
  {
    var n := |u|;
    var x := u[n - 1];
    BehindFacts(x);
    forall j | 0 <= j < n - 2
      ensures u[j] != Behind(x)
    {
      assert Before(u[j], u[n - 2]) && Before(u[n - 2], x);
      assert u[j].dir == x.dir && u[n - 2].dir == x.dir;
      assert Major(u[j]) < Major(x) || Minor(u[j]) < Minor(x) - 1;
    }
    assert u[..n - 1][n - 2] == u[n - 2];
  }

  /** The four direction groups split the edges. */
  lemma {:induction false} GroupSizes(edges: seq<Edge>)
    ensures |Group(edges, Down)| + |Group(edges, Right)| + |Group(edges, Up)| + |Group(edges, Left)| == |edges|
  {
    if |edges| > 0 {
      GroupSizes(edges[1..]);
    }
  }

  lemma GroupNonEmpty(edges: seq<Edge>, d: Dir)
    requires HasFacing(edges, d)
    ensures |Group(edges, d)| > 0
  {
    var i :| 0 <= i < |edges| && edges[i].dir == d;
    assert edges[i] in Group(edges, d);
  }

  lemma {:induction false} GroupNoDup(edges: seq<Edge>, d: Dir)
    requires NoDup(edges)
    ensures NoDup(Group(edges, d))
  {
    if |edges| > 0 {
      assert NoDup(edges[1..]);
      GroupNoDup(edges[1..], d);
      if edges[0].dir == d {
        assert edges[0] !in edges[1..];
        NoDupAppend([edges[0]], Group(edges[1..], d));
      }
    }
  }

  /** A duplicate-free sequence holds each element at most once. */
  lemma {:induction false} NoDupCount<T>(a: seq<T>, x: T)
    requires NoDup(a)
    ensures multiset(a)[x] <= 1
  {
    if |a| > 0 {
      var p := a[..|a| - 1];
      assert a == p + [a[|a| - 1]];
      assert NoDup(p);
      NoDupCount(p, x);
      assert a[|a| - 1] !in p;
    }
  }

  /** Two equal entries are two copies. */
  lemma TwoCopies<T>(b: seq<T>, i: nat, j: nat)
    requires i < j < |b|
    ensures b[i] == b[j] ==> multiset(b)[b[i]] >= 2
  {
    assert b == b[..j] + b[j..];
    assert b[i] in b[..j] && b[j] in b[j..];
  }

  /** A rearrangement of a duplicate-free sequence is duplicate-free. */
  lemma PermNoDup<T>(a: seq<T>, b: seq<T>)
    requires multiset(a) == multiset(b) && NoDup(a)
    ensures NoDup(b)
  {
    forall i, j | 0 <= i < j < |b|
      ensures b[i] != b[j]
    {
      NoDupCount(a, b[i]);
      TwoCopies(b, i, j);
    }
  }

  /** Without duplicates, the arranged group is the group's edges in
      strictly ascending order. */
  lemma ArrangedAscending(edges: seq<Edge>, d: Dir)
    requires NoDup(edges) && HasFacing(edges, d)
    ensures |Group(edges, d)| > 0
    ensures Ascending(Arrange(Group(edges, d)))
    ensures forall e :: e in Arrange(Group(edges, d)) <==> e in edges && e.dir == d
  {
    var units := Group(edges, d);
    GroupNonEmpty(edges, d);
    var u := Arrange(units);
    ArrangedMembers(edges, d);
    assert u[0] in u;
    assert forall i :: 0 <= i < |u| ==> u[i].dir == d by {
      forall i | 0 <= i < |u|
        ensures u[i].dir == d
      {
        assert u[i] in u;
      }
    }
    assert units[0] in units;
    LexBefore(u, d);
  }

  /** The arranged group is a duplicate-free arrangement of the group. */
  lemma ArrangedMembers(edges: seq<Edge>, d: Dir)
    requires NoDup(edges) && HasFacing(edges, d)
    ensures |Group(edges, d)| > 0
    ensures NoDup(Arrange(Group(edges, d))) && |Arrange(Group(edges, d))| == |Group(edges, d)|
    ensures forall e :: e in Arrange(Group(edges, d)) <==> e in edges && e.dir == d
    ensures Group(edges, d)[0].dir == Down || Group(edges, d)[0].dir == Up ==> LexSortedBy(Arrange(Group(edges, d)), EY, EX)
    ensures Group(edges, d)[0].dir == Left || Group(edges, d)[0].dir == Right ==> LexSortedBy(Arrange(Group(edges, d)), EX, EY)
  {
    var units := Group(edges, d);
    GroupNonEmpty(edges, d);
    GroupNoDup(edges, d);
    var u := Arrange(units);
    ArrangeOrder(units);
    PermNoDup(units, u);
    forall e
      ensures e in u <==> e in units
    {
      assert e in u <==> e in multiset(u);
      assert e in units <==> e in multiset(units);
    }
    assert |u| == |multiset(u)| == |units|;
  }

  /** Distinct edges facing one way, sorted by major and then minor key,
      are strictly ascending. */
  lemma LexBefore(u: seq<Edge>, d: Dir)
    requires NoDup(u) && forall i :: 0 <= i < |u| ==> u[i].dir == d
    requires d == Down || d == Up ==> LexSortedBy(u, EY, EX)
    requires d == Left || d == Right ==> LexSortedBy(u, EX, EY)
    ensures forall i, j :: 0 <= i < j < |u| ==> Before(u[i], u[j])
  {
    forall i, j | 0 <= i < j < |u|
      ensures Before(u[i], u[j])
    {
      assert u[i] != u[j] && u[i].dir == u[j].dir == d;
      if d == Down || d == Up {
        assert EY(u[i]) < EY(u[j]) || (EY(u[i]) == EY(u[j]) && EX(u[i]) <= EX(u[j]));
      } else {
        assert EX(u[i]) < EX(u[j]) || (EX(u[i]) == EX(u[j]) && EY(u[i]) <= EY(u[j]));
      }
    }
  }

  /** Restricted to one direction, the sides of a group are the sides of
      the region facing that way. */
  lemma GroupStarts(edges: seq<Edge>, d: Dir, u: seq<Edge>)
    requires forall e :: e in u <==> e in edges && e.dir == d
    ensures Starts(u) == StartsFacing(edges, d)
  {
    forall e | e in edges && e.dir == d
      ensures Behind(e) in u <==> Behind(e) in edges
    {
      BehindFacts(e);
    }
  }

  /** The number of sides facing d: one for the first edge of the arranged
      group and one more at every break. */
  function GroupSides(edges: seq<Edge>, d: Dir): nat
    requires HasFacing(edges, d)
  {
    GroupNonEmpty(edges, d);
    1 + Breaks(Arrange(Group(edges, d)))
  }

  /** Without duplicate edges, the loop's count for a direction is the
      number of sides facing it. */
  lemma GroupSidesCount(edges: seq<Edge>, d: Dir)
    requires NoDup(edges) && HasFacing(edges, d)
    ensures GroupSides(edges, d) == |StartsFacing(edges, d)|
  {
    ArrangedAscending(edges, d);
    var u := Arrange(Group(edges, d));
    RunsCount(u);
    GroupStarts(edges, d, u);
  }

  /** Counts facing the directions ds, and boundary edges facing them. */
  function SidesOf(edges: seq<Edge>, ds: seq<Dir>): nat
    requires forall d :: HasFacing(edges, d)
  {
    if |ds| == 0 then 0 else SidesOf(edges, ds[..|ds| - 1]) + GroupSides(edges, ds[|ds| - 1])
  }

  function SizeOf(edges: seq<Edge>, ds: seq<Dir>): nat {
    if |ds| == 0 then 0 else SizeOf(edges, ds[..|ds| - 1]) + |Group(edges, ds[|ds| - 1])|
  }

  /** Lines 116-142 for one direction group: the count is the number of
      sides facing d, on a region's duplicate-free edges. */
  method CountGroup(edges: seq<Edge>, d: Dir) returns (c: nat)
    requires HasFacing(edges, d)
    ensures NoDup(edges) ==> c == |StartsFacing(edges, d)|
    ensures c == GroupSides(edges, d)
    ensures 1 <= c <= |Group(edges, d)|
  {
    var units := Group(edges, d);
    GroupNonEmpty(edges, d);
    var sorted := Arrange(units);
    ArrangeSize(units);
    c := CountRuns(sorted);
    if NoDup(edges) {
      GroupSidesCount(edges, d);
    }
  }

  lemma ArrangeSize(units: seq<Edge>)
    requires |units| > 0
    ensures |Arrange(units)| == |units|
  {
    ArrangeOrder(units);
    assert |Arrange(units)| == |multiset(Arrange(units))| == |units|;
  }

  /** Lines 110-143 for one region: every direction group is sorted and its
      sides counted. On a region's duplicate-free edges the total is the
      number of sides; it lies between four and the number of edges. */
  method CountSides(edges: seq<Edge>) returns (count: nat)
    requires forall d :: HasFacing(edges, d)
    ensures NoDup(edges) ==> count == Sides(edges)
    ensures count == SidesOf(edges, Directions)
    ensures 4 <= count <= |edges|
  {
    count := 0;
    for k := 0 to 4
      invariant count == SidesOf(edges, Directions[..k])
    {
      var c := CountGroup(edges, Directions[k]);
      SidesOfStep(edges, k);
      count := count + c;
    }
    assert Directions[..4] == Directions;
    CountedRange(edges);
    if NoDup(edges) {
      SidesSplit(edges);
    }
  }

  lemma SidesOfStep(edges: seq<Edge>, k: nat)
    requires k < 4 && forall d :: HasFacing(edges, d)
    ensures SidesOf(edges, Directions[..k + 1]) == SidesOf(edges, Directions[..k]) + GroupSides(edges, Directions[k])
  {
    assert Directions[..k + 1][..k] == Directions[..k];
  }

  /** The sides of a region split by the way they face. */
  lemma SidesSplit(edges: seq<Edge>)
    requires NoDup(edges) && forall d :: HasFacing(edges, d)
    ensures SidesOf(edges, Directions) == Sides(edges)
  {
    SidesOfDirections(edges);
    GroupSidesCount(edges, Down);
    GroupSidesCount(edges, Right);
    GroupSidesCount(edges, Up);
    GroupSidesCount(edges, Left);
    StartsUnion(edges);
  }

  lemma SidesOfDirections(edges: seq<Edge>)
    requires forall d :: HasFacing(edges, d)
    ensures SidesOf(edges, Directions) == GroupSides(edges, Down) + GroupSides(edges, Right)
      + GroupSides(edges, Up) + GroupSides(edges, Left)
  {
    var d1, d2, d3, d4 := [Down], [Down, Right], [Down, Right, Up], [Down, Right, Up, Left];
    assert d4[..3] == d3 && d3[..2] == d2 && d2[..1] == d1 && d1[..0] == [];
    assert SidesOf(edges, d1) == GroupSides(edges, Down);
    assert SidesOf(edges, d2) == SidesOf(edges, d1) + GroupSides(edges, Right);
    assert SidesOf(edges, d3) == SidesOf(edges, d2) + GroupSides(edges, Up);
    assert SidesOf(edges, d4) == SidesOf(edges, d3) + GroupSides(edges, Left);
  }

  lemma StartsUnion(edges: seq<Edge>)
    ensures |Starts(edges)| == |StartsFacing(edges, Down)| + |StartsFacing(edges, Right)|
      + |StartsFacing(edges, Up)| + |StartsFacing(edges, Left)|
  {
    var a, b, c, e := StartsFacing(edges, Down), StartsFacing(edges, Right), StartsFacing(edges, Up), StartsFacing(edges, Left);
    assert Starts(edges) == a + b + c + e by {
      forall x | x in Starts(edges)
        ensures x in a + b + c + e
      {
        match x.dir
        case Down =>
        case Right =>
        case Up =>
        case Left =>
      }
    }
    assert a !! b && a !! c && a !! e && b !! c && b !! e && c !! e;
    assert |a + b| == |a| + |b|;
    assert |a + b + c| == |a + b| + |c|;
  }

  /** The loop's count lies between four and the number of edges. */
  lemma CountedRange(edges: seq<Edge>)
    requires forall d :: HasFacing(edges, d)
    ensures 4 <= SidesOf(edges, Directions) <= |edges|
  {
    SidesBounds(edges, Directions);
    GroupSizes(edges);
    SizeOfDirections(edges);
  }

  /** A region has at least four sides and at most one per boundary edge. */
  lemma SidesRange(edges: seq<Edge>)
    requires NoDup(edges) && forall d :: HasFacing(edges, d)
    ensures 4 <= Sides(edges) <= |edges|
  {
    CountedRange(edges);
    SidesSplit(edges);
  }

  lemma SizeOfDirections(edges: seq<Edge>)
    ensures SizeOf(edges, Directions) == |Group(edges, Down)| + |Group(edges, Right)| + |Group(edges, Up)| + |Group(edges, Left)|
  {
    var d1, d2, d3, d4 := [Down], [Down, Right], [Down, Right, Up], [Down, Right, Up, Left];
    assert d4[..3] == d3 && d3[..2] == d2 && d2[..1] == d1 && d1[..0] == [];
    assert SizeOf(edges, d1) == |Group(edges, Down)|;
    assert SizeOf(edges, d2) == SizeOf(edges, d1) + |Group(edges, Right)|;
    assert SizeOf(edges, d3) == SizeOf(edges, d2) + |Group(edges, Up)|;
    assert SizeOf(edges, d4) == SizeOf(edges, d3) + |Group(edges, Left)|;
  }

  lemma {:induction false} SidesBounds(edges: seq<Edge>, ds: seq<Dir>)
    requires forall d :: HasFacing(edges, d)
    ensures |ds| <= SidesOf(edges, ds) <= SizeOf(edges, ds)
  {
    if |ds| > 0 {
      SidesBounds(edges, ds[..|ds| - 1]);
      GroupNonEmpty(edges, ds[|ds| - 1]);
      var units := Group(edges, ds[|ds| - 1]);
      ArrangeOrder(units);
      assert |Arrange(units)| == |multiset(Arrange(units))| == |units|;
    }
  }

  lemma PriceStep(area: nat, sides: nat, edges: nat)
    requires sides <= edges
    ensures area * sides <= area * edges
  {
  }

  /** Part 2 (lines 104-148): the sum of area times number of sides. */
  ghost function SidesPrice(rs: seq<Region>): int {
    if |rs| == 0 then 0
    else SidesPrice(rs[..|rs| - 1]) + rs[|rs| - 1].area * Sides(rs[|rs| - 1].edges)
  }

  /** Part 2 over the regions part 1 stored: area times sides, summed;
      never more than part 1's price. */
  method SolvePart2(g: Grid, regions: seq<Region>) returns (price: int)
    requires Rectangular(g)
    requires forall i :: 0 <= i < |regions| ==> IsRegion(g, regions[i])
    ensures price == SidesPrice(regions)
    ensures price <= PerimeterPrice(regions)
  {
    price := 0;
    for i := 0 to |regions|
      invariant price == SidesPrice(regions[..i])
      invariant price <= PerimeterPrice(regions[..i])
    {
      assert regions[..i + 1][..i] == regions[..i];
      assert IsRegion(g, regions[i]);
      var sides := CountSides(regions[i].edges);
      PriceStep(regions[i].area, sides, |regions[i].edges|);
      price := price + regions[i].area * sides;
    }
    assert regions[..|regions|] == regions;
  }
}
