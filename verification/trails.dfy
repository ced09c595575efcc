/** Hiking trails on a height map (day_10/solution.js): from every height-0
    cell a depth-first search follows steps to an orthogonal neighbour
    exactly one higher. Part 1 scores a trailhead by the distinct height-9
    cells it reaches, part 2 rates it by the number of distinct trails. */
module TrailSearch {
  import opened Wrappers
  import opened Decimal
  import opened Text
  import opened Plane

  /** The parsed input: one row of heights per line. */
  type HeightMap = seq<seq<int>>

  /** `Number` of a one-character string: a digit gives its value and a
      white-space character (a stray carriage return, say) gives 0. Anything
      else gives NaN, written -1 here: NaN equals no height, and -1 equals no
      height a step from a trailhead looks for. */
  function Height(c: char): (h: int)
    ensures -1 <= h <= 9
    ensures h == -1 <==> CharNumber(c) == None
  {
    match CharNumber(c)
    case Some(v) => v
    case None => -1
  }

  /** Every height lies in -1 .. 9. */
  predicate HeightsInRange(g: HeightMap) {
    forall y, x :: 0 <= y < |g| && 0 <= x < |g[y]| ==> -1 <= g[y][x] <= 9
  }

  /** `parseInput`: the trimmed input cut into lines, every character of a
      line turned into a height. */
  function ParseInput(input: string): (g: HeightMap)
    ensures |g| == |Split(Trim(input), '\n')|
    ensures forall y :: 0 <= y < |g| ==> g[y] == HeightRow(Split(Trim(input), '\n')[y])
    ensures forall y :: 0 <= y < |g| ==> |g[y]| == |Split(Trim(input), '\n')[y]|
    ensures forall y, x :: 0 <= y < |g| && 0 <= x < |g[y]| ==> g[y][x] == Height(Split(Trim(input), '\n')[y][x])
    ensures HeightsInRange(g)
  {
    var lines := Split(Trim(input), '\n');
    seq(|lines|, y requires 0 <= y < |lines| => HeightRow(lines[y]))
  }

  /** One line of the map, every character turned into a height. */
  function HeightRow(line: string): (r: seq<int>)
    ensures |r| == |line|
    ensures forall x :: 0 <= x < |r| ==> r[x] == Height(line[x]) && -1 <= r[x] <= 9
  {
    seq(|line|, x requires 0 <= x < |line| => Height(line[x]))
  }

  /** `data[y][x]` behind the `isWithinBounds` test: None when the test
      fails (the width comes from the first row) or the row is too short. */
  function At(g: HeightMap, x: int, y: int): Option<int> {
    if 0 <= y < |g| && 0 <= x < |g[0]| && x < |g[y]| then Some(g[y][x]) else None
  }

  /** A stack entry `{x, y, val}`. */
  datatype Pos = Pos(x: int, y: int, val: int)

  function CellOf(p: Pos): Cell {
    Cell(p.x, p.y)
  }

  /** A search position: its value lies between the trailhead's 0 and the
      target 9. */
  predicate Valid(p: Pos) {
    0 <= p.val <= 9
  }

  /** All entries of ps have value h. */
  predicate Level(ps: seq<Pos>, h: int) {
    forall i :: 0 <= i < |ps| ==> ps[i].val == h
  }

  /** All entries of ps are grid cells holding their value. */
  predicate OnMap(g: HeightMap, ps: seq<Pos>) {
    forall i :: 0 <= i < |ps| ==> At(g, ps[i].x, ps[i].y) == Some(ps[i].val)
  }

  /** `_DIRS`, in its order. */
  const DirX: seq<int> := [0, 1, 0, -1]
  const DirY: seq<int> := [1, 0, -1, 0]

  /** The entry for the neighbour of p in direction j, one higher. */
  function Toward(p: Pos, j: nat): Pos
    requires j < 4
  {
    Pos(p.x + DirX[j], p.y + DirY[j], p.val + 1)
  }

  /** q is one step on from p: an orthogonal neighbour in the grid whose
      height is one more than p's value. */
  predicate IsStep(g: HeightMap, p: Pos, q: Pos) {
    exists j :: 0 <= j < 4 && q == Toward(p, j) && At(g, q.x, q.y) == Some(q.val)
  }

  /** The entries the inner `for (dir of _DIRS)` loop pushes, from direction
      k on. */
  function StepsFrom(g: HeightMap, p: Pos, k: nat): (r: seq<Pos>)
    requires k <= 4
    ensures |r| <= 4 - k
    ensures Level(r, p.val + 1) && OnMap(g, r)
    decreases 4 - k
  {
    if k == 4 then []
    else
      var q := Toward(p, k);
      var rest := StepsFrom(g, p, k + 1);
      if At(g, q.x, q.y) == Some(q.val) then [q] + rest else rest
  }

  /** The entries pushed after popping p: every step on from p. */
  function Steps(g: HeightMap, p: Pos): (r: seq<Pos>)
    ensures |r| <= 4
    ensures Level(r, p.val + 1) && OnMap(g, r)
  {
    StepsFrom(g, p, 0)
  }

  lemma {:induction false} StepsFromMembers(g: HeightMap, p: Pos, k: nat)
    requires k <= 4
    ensures forall q :: q in StepsFrom(g, p, k) <==> exists j :: k <= j < 4 && q == Toward(p, j) && At(g, q.x, q.y) == Some(q.val)
    decreases 4 - k
  {
    if k < 4 {
      StepsFromMembers(g, p, k + 1);
    }
  }

  /** The pushed entries are exactly the steps on from p. */
  lemma StepsMembers(g: HeightMap, p: Pos)
    ensures forall q :: q in Steps(g, p) <==> IsStep(g, p, q)
  {
    StepsFromMembers(g, p, 0);
  }

  /** Reference: the height-9 cells reached from p by steps. */
  function Ends(g: HeightMap, p: Pos): set<Cell>
    requires Valid(p)
    decreases 10 - p.val, 0
  {
    if p.val == 9 then {CellOf(p)} else EndsOf(g, Steps(g, p), p.val + 1)
  }

  function EndsOf(g: HeightMap, ps: seq<Pos>, h: int): set<Cell>
    requires 1 <= h <= 9
    requires Level(ps, h)
    decreases 10 - h, 1, |ps|
  {
    if |ps| == 0 then {} else Ends(g, ps[0]) + EndsOf(g, ps[1..], h)
  }

  /** Reference: the number of step sequences from p to a height-9 cell. */
  function Paths(g: HeightMap, p: Pos): (n: nat)
    requires Valid(p)
    decreases 10 - p.val, 0
  {
    if p.val == 9 then 1 else PathsOf(g, Steps(g, p), p.val + 1)
  }

  function PathsOf(g: HeightMap, ps: seq<Pos>, h: int): (n: nat)
    requires 1 <= h <= 9
    requires Level(ps, h)
    decreases 10 - h, 1, |ps|
  {
    if |ps| == 0 then 0 else Paths(g, ps[0]) + PathsOf(g, ps[1..], h)
  }

  /** Every end reached from a position below the target is a height-9 cell
      of the grid. */
  lemma {:induction false} EndsAreNines(g: HeightMap, p: Pos)
    requires Valid(p) && p.val < 9
    ensures forall c :: c in Ends(g, p) ==> At(g, c.x, c.y) == Some(9)
    decreases 10 - p.val, 0
  {
    EndsOfAreNines(g, Steps(g, p), p.val + 1);
  }

  lemma {:induction false} EndsOfAreNines(g: HeightMap, ps: seq<Pos>, h: int)
    requires 1 <= h <= 9
    requires Level(ps, h) && OnMap(g, ps)
    ensures forall c :: c in EndsOf(g, ps, h) ==> At(g, c.x, c.y) == Some(9)
    decreases 10 - h, 1, |ps|
  {
    if |ps| > 0 {
      if h < 9 {
        EndsAreNines(g, ps[0]);
      }
      EndsOfAreNines(g, ps[1..], h);
    }
  }

  /** Part 2 counts no fewer trails than part 1 finds distinct ends. */
  lemma {:induction false} EndsAtMostPaths(g: HeightMap, p: Pos)
    requires Valid(p)
    ensures |Ends(g, p)| <= Paths(g, p)
    decreases 10 - p.val, 0
  {
    if p.val < 9 {
      EndsOfAtMostPathsOf(g, Steps(g, p), p.val + 1);
    }
  }

  lemma {:induction false} EndsOfAtMostPathsOf(g: HeightMap, ps: seq<Pos>, h: int)
    requires 1 <= h <= 9
    requires Level(ps, h)
    ensures |EndsOf(g, ps, h)| <= PathsOf(g, ps, h)
    decreases 10 - h, 1, |ps|
  {
    if |ps| > 0 {
      EndsAtMostPaths(g, ps[0]);
      EndsOfAtMostPathsOf(g, ps[1..], h);
      var a, b := Ends(g, ps[0]), EndsOf(g, ps[1..], h);
      assert |a + b| <= |a| + |b| by {
        UnionCard(a, b);
      }
    }
  }

  lemma UnionCard<T>(a: set<T>, b: set<T>)
    ensures |a + b| <= |a| + |b|
  {
    assert |a + b| == |a| + |b - a|;
    assert b - a <= b;
  }

  /** The ends of a stack: the ends of all its entries together. */
  function StackEnds(g: HeightMap, stack: seq<Pos>): set<Cell>
    requires forall i :: 0 <= i < |stack| ==> Valid(stack[i])
  {
    if |stack| == 0 then {}
    else StackEnds(g, stack[..|stack| - 1]) + Ends(g, stack[|stack| - 1])
  }

  /** The trails of a stack: the trails of all its entries together. */
  function StackPaths(g: HeightMap, stack: seq<Pos>): nat
    requires forall i :: 0 <= i < |stack| ==> Valid(stack[i])
  {
    if |stack| == 0 then 0
    else StackPaths(g, stack[..|stack| - 1]) + Paths(g, stack[|stack| - 1])
  }

  lemma ValidAppend(stack: seq<Pos>, ps: seq<Pos>)
    requires forall i :: 0 <= i < |stack| ==> Valid(stack[i])
    requires forall i :: 0 <= i < |ps| ==> Valid(ps[i])
    ensures forall i :: 0 <= i < |stack + ps| ==> Valid((stack + ps)[i])
  {
    forall i | 0 <= i < |stack + ps|
      ensures Valid((stack + ps)[i])
    {
      if i >= |stack| {
        assert (stack + ps)[i] == ps[i - |stack|];
      }
    }
  }

  lemma {:induction false} StackEndsPush(g: HeightMap, stack: seq<Pos>, ps: seq<Pos>, h: int)
    requires forall i :: 0 <= i < |stack| ==> Valid(stack[i])
    requires 1 <= h <= 9 && Level(ps, h)
    ensures forall i :: 0 <= i < |stack + ps| ==> Valid((stack + ps)[i])
    ensures StackEnds(g, stack + ps) == StackEnds(g, stack) + EndsOf(g, ps, h)
    decreases |ps|
  {
    ValidAppend(stack, ps);
    if |ps| == 0 {
      assert stack + ps == stack;
    } else {
      var last := ps[|ps| - 1];
      var init := ps[..|ps| - 1];
      StackEndsPush(g, stack, init, h);
      StackEndsLast(g, stack, ps, h);
      EndsOfLast(g, ps, h);
      UnionMove(StackEnds(g, stack), EndsOf(g, init, h), Ends(g, last));
    }
  }

  /** The stack's last entry is the pushed sequence's last one. */
  lemma StackEndsLast(g: HeightMap, stack: seq<Pos>, ps: seq<Pos>, h: int)
    requires forall i :: 0 <= i < |stack| ==> Valid(stack[i])
    requires 1 <= h <= 9 && Level(ps, h) && |ps| > 0
    ensures AllValid(stack + ps) && AllValid(stack + ps[..|ps| - 1])
    ensures StackEnds(g, stack + ps) == StackEnds(g, stack + ps[..|ps| - 1]) + Ends(g, ps[|ps| - 1])
  {
    ValidAppend(stack, ps);
    ValidAppend(stack, ps[..|ps| - 1]);
    var whole := stack + ps;
    assert whole[..|whole| - 1] == stack + ps[..|ps| - 1];
  }

  predicate AllValid(stack: seq<Pos>) {
    forall i :: 0 <= i < |stack| ==> Valid(stack[i])
  }

  /** The ends of a level: those of all but its last entry, and the last's. */
  lemma EndsOfLast(g: HeightMap, ps: seq<Pos>, h: int)
    requires 1 <= h <= 9 && Level(ps, h) && |ps| > 0
    ensures EndsOf(g, ps, h) == EndsOf(g, ps[..|ps| - 1], h) + Ends(g, ps[|ps| - 1])
  {
    assert ps[..|ps| - 1] + [ps[|ps| - 1]] == ps;
    EndsOfSnoc(g, ps[..|ps| - 1], ps[|ps| - 1], h);
  }

  lemma {:induction false} StackPathsPush(g: HeightMap, stack: seq<Pos>, ps: seq<Pos>, h: int)
    requires forall i :: 0 <= i < |stack| ==> Valid(stack[i])
    requires 1 <= h <= 9 && Level(ps, h)
    ensures forall i :: 0 <= i < |stack + ps| ==> Valid((stack + ps)[i])
    ensures StackPaths(g, stack + ps) == StackPaths(g, stack) + PathsOf(g, ps, h)
    decreases |ps|
  {
    ValidAppend(stack, ps);
    if |ps| == 0 {
      assert stack + ps == stack;
    } else {
      var last := ps[|ps| - 1];
      var init := ps[..|ps| - 1];
      StackPathsPush(g, stack, init, h);
      assert (stack + ps)[..|stack + ps| - 1] == stack + init;
      assert (stack + ps)[|stack + ps| - 1] == last;
      PathsOfSnoc(g, init, last, h);
      assert init + [last] == ps;
    }
  }

  lemma {:induction false} EndsOfSnoc(g: HeightMap, ps: seq<Pos>, q: Pos, h: int)
    requires 1 <= h <= 9 && Level(ps, h)
    requires q.val == h
    ensures EndsOf(g, ps + [q], h) == EndsOf(g, ps, h) + Ends(g, q)
  {
    if |ps| > 0 {
      assert (ps + [q])[1..] == ps[1..] + [q];
      EndsOfSnoc(g, ps[1..], q, h);
    } else {
      assert ([q])[1..] == [];
    }
  }

  lemma {:induction false} PathsOfSnoc(g: HeightMap, ps: seq<Pos>, q: Pos, h: int)
    requires 1 <= h <= 9 && Level(ps, h)
    requires q.val == h
    ensures PathsOf(g, ps + [q], h) == PathsOf(g, ps, h) + Paths(g, q)
  {
    if |ps| > 0 {
      assert (ps + [q])[1..] == ps[1..] + [q];
      PathsOfSnoc(g, ps[1..], q, h);
    } else {
      assert ([q])[1..] == [];
    }
  }

  /** The termination measure of the search: an entry of value v weighs
      5^(9 - v), and the at most four entries pushed for it weigh less. */
  function Pow5(n: nat): (p: nat)
    ensures p >= 1
  {
    if n == 0 then 1 else 5 * Pow5(n - 1)
  }

  function Weight(stack: seq<Pos>): nat
    requires forall i :: 0 <= i < |stack| ==> Valid(stack[i])
  {
    if |stack| == 0 then 0
    else
      assert Valid(stack[|stack| - 1]);
      Weight(stack[..|stack| - 1]) + Pow5(9 - stack[|stack| - 1].val)
  }

  lemma {:induction false} WeightPush(stack: seq<Pos>, ps: seq<Pos>, h: int)
    requires forall i :: 0 <= i < |stack| ==> Valid(stack[i])
    requires 1 <= h <= 9
    requires forall i :: 0 <= i < |ps| ==> ps[i].val == h
    ensures forall i :: 0 <= i < |stack + ps| ==> Valid((stack + ps)[i])
    ensures Weight(stack + ps) == Weight(stack) + Times(|ps|, Pow5(9 - h))
    decreases |ps|
  {
    if |ps| == 0 {
      assert stack + ps == stack;
    } else {
      var init := ps[..|ps| - 1];
      WeightPush(stack, init, h);
      assert (stack + ps)[..|stack + ps| - 1] == stack + init;
      assert (stack + ps)[|stack + ps| - 1] == ps[|ps| - 1];
    }
  }

  /** n * w, by repeated addition. */
  function Times(n: nat, w: nat): nat {
    if n == 0 then 0 else Times(n - 1, w) + w
  }

  /** Replacing the top entry of value v by at most four entries of value
      v + 1 makes the stack lighter. */
  lemma WeightPop(stack: seq<Pos>, rest: seq<Pos>, next: seq<Pos>)
    requires |stack| > 0 && forall i :: 0 <= i < |stack| ==> Valid(stack[i])
    requires rest == stack[..|stack| - 1]
    requires stack[|stack| - 1].val < 9 && |next| <= 4
    requires forall i :: 0 <= i < |next| ==> next[i].val == stack[|stack| - 1].val + 1
    ensures forall i :: 0 <= i < |rest + next| ==> Valid((rest + next)[i])
    ensures Weight(rest + next) < Weight(stack)
  {
    var v := stack[|stack| - 1].val;
    var w := Pow5(9 - (v + 1));
    WeightPush(rest, next, v + 1);
    assert Pow5(9 - v) == 5 * w;
    FewWeighLess(|next|, w);
  }

  lemma FewWeighLess(n: nat, w: nat)
    requires n <= 4 && w >= 1
    ensures Times(n, w) <= 4 * w
  {
    assert Times(1, w) == w;
    assert Times(2, w) == 2 * w;
    assert Times(3, w) == 3 * w;
    assert Times(4, w) == 4 * w;
  }

  /** Popping the top entry splits off its ends and trails; a popped
      target leaves a lighter stack. */
  lemma PopStack(g: HeightMap, stack: seq<Pos>)
    requires |stack| > 0 && forall i :: 0 <= i < |stack| ==> Valid(stack[i])
    ensures var rest := stack[..|stack| - 1];
      var top := stack[|stack| - 1];
      && (forall i :: 0 <= i < |rest| ==> Valid(rest[i]))
      && StackEnds(g, stack) == StackEnds(g, rest) + Ends(g, top)
      && StackPaths(g, stack) == StackPaths(g, rest) + Paths(g, top)
      && (top.val == 9 ==> Weight(rest) < Weight(stack) && Ends(g, top) == {CellOf(top)} && Paths(g, top) == 1)
      && (top.val < 9 ==> Ends(g, top) == EndsOf(g, Steps(g, top), top.val + 1))
      && (top.val < 9 ==> Paths(g, top) == PathsOf(g, Steps(g, top), top.val + 1))
  {
    var rest, top := stack[..|stack| - 1], stack[|stack| - 1];
    assert forall i :: 0 <= i < |rest| ==> rest[i] == stack[i];
    TopUnfolds(g, top);
  }

  /** An entry's ends and trails: itself at the target, those of its steps
      below it. */
  lemma TopUnfolds(g: HeightMap, top: Pos)
    requires Valid(top)
    ensures top.val == 9 ==> Ends(g, top) == {CellOf(top)} && Paths(g, top) == 1
    ensures top.val < 9 ==> Ends(g, top) == EndsOf(g, Steps(g, top), top.val + 1)
    ensures top.val < 9 ==> Paths(g, top) == PathsOf(g, Steps(g, top), top.val + 1)
  {
  }

  /** The search from trailhead t for part 1 (lines 47-69): pop an entry,
      record it when it is at the target, push its steps otherwise. The
      cells found are exactly the ends of t. */
  method Score(g: HeightMap, t: Pos) returns (found: set<Cell>)
    requires Valid(t)
    ensures found == Ends(g, t)
  {
    found := {};
    var stack := [t];
    StartStack(g, t);
    while |stack| > 0
      invariant forall i :: 0 <= i < |stack| ==> Valid(stack[i])
      invariant found + StackEnds(g, stack) == Ends(g, t)
      decreases Weight(stack)
    {
      found, stack := ScoreStep(g, found, stack);
    }
  }

  /** One pass of the part 1 loop body. */
  method ScoreStep(g: HeightMap, found: set<Cell>, stack: seq<Pos>) returns (found2: set<Cell>, stack2: seq<Pos>)
    requires |stack| > 0 && forall i :: 0 <= i < |stack| ==> Valid(stack[i])
    ensures forall i :: 0 <= i < |stack2| ==> Valid(stack2[i])
    ensures found2 + StackEnds(g, stack2) == found + StackEnds(g, stack)
    ensures Weight(stack2) < Weight(stack)
  {
    var current := stack[|stack| - 1];
    stack2 := stack[..|stack| - 1];
    PopStack(g, stack);
    if current.val == 9 {
      found2 := found + {CellOf(current)};
      UnionMove(found, {CellOf(current)}, StackEnds(g, stack2));
    } else {
      var next := Steps(g, current);
      StackEndsPush(g, stack2, next, current.val + 1);
      WeightPop(stack, stack2, next);
      found2 := found;
      stack2 := stack2 + next;
    }
  }

  /** The search from trailhead t for part 2 (lines 95-116): the same
      walk without a set, counting every arrival at the target. */
  method Rating(g: HeightMap, t: Pos) returns (count: nat)
    requires Valid(t)
    ensures count == Paths(g, t)
  {
    count := 0;
    var stack := [t];
    StartStack(g, t);
    while |stack| > 0
      invariant forall i :: 0 <= i < |stack| ==> Valid(stack[i])
      invariant count + StackPaths(g, stack) == Paths(g, t)
      decreases Weight(stack)
    {
      count, stack := RatingStep(g, count, stack);
    }
  }

  /** One pass of the part 2 loop body. */
  method RatingStep(g: HeightMap, count: nat, stack: seq<Pos>) returns (count2: nat, stack2: seq<Pos>)
    requires |stack| > 0 && forall i :: 0 <= i < |stack| ==> Valid(stack[i])
    ensures forall i :: 0 <= i < |stack2| ==> Valid(stack2[i])
    ensures count2 + StackPaths(g, stack2) == count + StackPaths(g, stack)
    ensures Weight(stack2) < Weight(stack)
  {
    var current := stack[|stack| - 1];
    stack2 := stack[..|stack| - 1];
    PopStack(g, stack);
    if current.val == 9 {
      count2 := count + 1;
    } else {
      RatingPush(g, stack);
      count2 := count;
      stack2 := stack2 + Steps(g, current);
    }
  }

  /** Replacing the top entry below the target by its steps keeps the
      number of trails still to count and lowers the weight. */
  lemma RatingPush(g: HeightMap, stack: seq<Pos>)
    requires |stack| > 0 && forall i :: 0 <= i < |stack| ==> Valid(stack[i])
    requires stack[|stack| - 1].val < 9
    ensures var rest, top := stack[..|stack| - 1], stack[|stack| - 1];
      && (forall i :: 0 <= i < |rest + Steps(g, top)| ==> Valid((rest + Steps(g, top))[i]))
      && StackPaths(g, rest + Steps(g, top)) == StackPaths(g, stack)
      && Weight(rest + Steps(g, top)) < Weight(stack)
  {
    var rest, top := stack[..|stack| - 1], stack[|stack| - 1];
    PopStack(g, stack);
    StackPathsPush(g, rest, Steps(g, top), top.val + 1);
    WeightPop(stack, rest, Steps(g, top));
  }

  lemma UnionMove<T>(a: set<T>, b: set<T>, c: set<T>)
    ensures (a + b) + c == a + (c + b)
  {
  }

  /** A stack holding only t holds t's ends and trails. */
  lemma StartStack(g: HeightMap, t: Pos)
    requires Valid(t)
    ensures StackEnds(g, [t]) == Ends(g, t)
    ensures StackPaths(g, [t]) == Paths(g, t)
  {
    assert [t][..0] == [];
  }

  /** p comes before q in row-major order. */
  predicate Before(p: Pos, q: Pos) {
    p.y < q.y || (p.y == q.y && p.x < q.x)
  }

  /** `findTrailheads` (lines 130-140): every height-0 cell of every row, as
      a stack entry of value 0, in row-major order. */
  method FindTrailheads(g: HeightMap) returns (heads: seq<Pos>)
    ensures forall i :: 0 <= i < |heads| ==> heads[i].val == 0
    ensures forall i :: 0 <= i < |heads| ==>
      0 <= heads[i].y < |g| && 0 <= heads[i].x < |g[heads[i].y]| && g[heads[i].y][heads[i].x] == 0
    ensures forall y, x :: 0 <= y < |g| && 0 <= x < |g[y]| && g[y][x] == 0 ==> Pos(x, y, 0) in heads
    ensures forall i, j :: 0 <= i < j < |heads| ==> Before(heads[i], heads[j])
  {
    heads := [];
    for y := 0 to |g|
      invariant forall i :: 0 <= i < |heads| ==> heads[i].val == 0
      invariant forall i :: 0 <= i < |heads| ==>
        0 <= heads[i].y < y && 0 <= heads[i].x < |g[heads[i].y]| && g[heads[i].y][heads[i].x] == 0
      invariant forall r, x :: 0 <= r < y && 0 <= x < |g[r]| && g[r][x] == 0 ==> Pos(x, r, 0) in heads
      invariant forall i, j :: 0 <= i < j < |heads| ==> Before(heads[i], heads[j])
    {
      for x := 0 to |g[y]|
        invariant forall i :: 0 <= i < |heads| ==> heads[i].val == 0
        invariant forall i :: 0 <= i < |heads| ==>
          0 <= heads[i].y <= y && 0 <= heads[i].x < |g[heads[i].y]| && g[heads[i].y][heads[i].x] == 0
        invariant forall i :: 0 <= i < |heads| ==> heads[i].y < y || heads[i].x < x
        invariant forall r, c :: 0 <= r < y && 0 <= c < |g[r]| && g[r][c] == 0 ==> Pos(c, r, 0) in heads
        invariant forall c :: 0 <= c < x && g[y][c] == 0 ==> Pos(c, y, 0) in heads
        invariant forall i, j :: 0 <= i < j < |heads| ==> Before(heads[i], heads[j])
      {
        if g[y][x] == 0 {
          heads := heads + [Pos(x, y, 0)];
        }
      }
    }
  }

  /** Part 1 (lines 36-77): the sum of the trailheads' scores. */
  function TotalScore(g: HeightMap, heads: seq<Pos>): nat
    requires forall i :: 0 <= i < |heads| ==> Valid(heads[i])
  {
    if |heads| == 0 then 0
    else TotalScore(g, heads[..|heads| - 1]) + |Ends(g, heads[|heads| - 1])|
  }

  /** Part 2 (lines 83-122): the sum of the trailheads' ratings. */
  function TotalRating(g: HeightMap, heads: seq<Pos>): nat
    requires forall i :: 0 <= i < |heads| ==> Valid(heads[i])
  {
    if |heads| == 0 then 0
    else TotalRating(g, heads[..|heads| - 1]) + Paths(g, heads[|heads| - 1])
  }

  method SolvePart1(g: HeightMap, heads: seq<Pos>) returns (answer: nat)
    requires forall i :: 0 <= i < |heads| ==> heads[i].val == 0
    ensures answer == TotalScore(g, heads)
    ensures answer <= TotalRating(g, heads)
  {
    answer := 0;
    for i := 0 to |heads|
      invariant answer == TotalScore(g, heads[..i])
      invariant answer <= TotalRating(g, heads[..i])
    {
      assert heads[..i + 1][..i] == heads[..i];
      var found := Score(g, heads[i]);
      EndsAtMostPaths(g, heads[i]);
      answer := answer + |found|;
    }
    assert heads[..|heads|] == heads;
  }

  method SolvePart2(g: HeightMap, heads: seq<Pos>) returns (answer: nat)
    requires forall i :: 0 <= i < |heads| ==> heads[i].val == 0
    ensures answer == TotalRating(g, heads)
  {
    answer := 0;
    for i := 0 to |heads|
      invariant answer == TotalRating(g, heads[..i])
    {
      assert heads[..i + 1][..i] == heads[..i];
      var count := Rating(g, heads[i]);
      answer := answer + count;
    }
    assert heads[..|heads|] == heads;
  }

  /** The height-9 cells of the grid. */
  ghost function Nines(g: HeightMap): set<Cell>
    requires |g| > 0
  {
    set x, y | 0 <= y < |g| && 0 <= x < |g[0]| && x < |g[y]| && g[y][x] == 9 :: Cell(x, y)
  }

  /** Line 55 keeps `x + y * 1000` in `found` rather than the cell. */
  const FoundScale := 1000

  /** On a map at most 1000 wide no two ends share a number, so the size
      of the `found` set of numbers is the number of ends. */
  lemma ScoreAsNumbers(g: HeightMap, t: Pos)
    requires |g| > 0 && t.val == 0 && |g[0]| <= FoundScale
    ensures |Keys(Ends(g, t), FoundScale)| == |Ends(g, t)|
  {
    EndsAreNines(g, t);
    KeysCard(Ends(g, t), FoundScale);
  }

  /** A trailhead's score is at most the number of height-9 cells. */
  lemma ScoreAtMostNines(g: HeightMap, t: Pos)
    requires |g| > 0 && t.val == 0
    ensures |Ends(g, t)| <= |Nines(g)|
  {
    var e := Ends(g, t);
    EndsAreNines(g, t);
    forall c | c in e
      ensures c in Nines(g)
    {
      assert At(g, c.x, c.y) == Some(9);
      assert c == Cell(c.x, c.y);
    }
    SubsetCard(e, Nines(g));
  }

  lemma SubsetCard<T>(a: set<T>, b: set<T>)
    requires a <= b
    ensures |a| <= |b|
  {
    assert b == a + (b - a);
  }

  /** A trail: search positions, each one step on from the one before. */
  ghost predicate IsTrail(g: HeightMap, path: seq<Pos>) {
    |path| >= 1 && forall i :: 0 <= i < |path| - 1 ==> IsStep(g, path[i], path[i + 1])
  }

  lemma {:induction false} TrailValues(g: HeightMap, path: seq<Pos>)
    requires IsTrail(g, path)
    ensures forall i :: 0 <= i < |path| ==> path[i].val == path[0].val + i
    decreases |path|
  {
    if |path| > 1 {
      var init := path[..|path| - 1];
      assert IsTrail(g, init) by {
        forall i | 0 <= i < |init| - 1
          ensures IsStep(g, init[i], init[i + 1])
        {
          assert IsStep(g, path[i], path[i + 1]);
        }
      }
      TrailValues(g, init);
      assert IsStep(g, path[|path| - 2], path[|path| - 1]);
    }
  }

  /** On a parsed map every trail from a trailhead has at most ten cells:
      values climb by one from 0 and no height exceeds 9. */
  lemma TrailLength(g: HeightMap, path: seq<Pos>)
    requires HeightsInRange(g) && IsTrail(g, path) && path[0].val == 0
    ensures |path| <= 10
  {
    TrailValues(g, path);
    if |path| > 1 {
      var n := |path| - 1;
      assert IsStep(g, path[n - 1], path[n]);
      var q := path[n];
      assert At(g, q.x, q.y) == Some(q.val);
      assert q.val == g[q.y][q.x] <= 9;
    }
  }

  lemma {:induction false} EndsOfWitness(g: HeightMap, ps: seq<Pos>, h: int, c: Cell) returns (q: Pos)
    requires 1 <= h <= 9 && Level(ps, h) && c in EndsOf(g, ps, h)
    ensures q in ps && Valid(q) && c in Ends(g, q)
    decreases |ps|
  {
    if c in Ends(g, ps[0]) {
      q := ps[0];
    } else {
      q := EndsOfWitness(g, ps[1..], h, c);
    }
  }

  lemma {:induction false} EndsOfMember(g: HeightMap, ps: seq<Pos>, h: int, q: Pos)
    requires 1 <= h <= 9 && Level(ps, h) && q in ps
    ensures Valid(q) && Ends(g, q) <= EndsOf(g, ps, h)
    decreases |ps|
  {
    if ps[0] != q {
      EndsOfMember(g, ps[1..], h, q);
    }
  }

  /** Every end of p closes a trail from p to a height-9 cell. */
  lemma {:induction false} EndHasTrail(g: HeightMap, p: Pos, c: Cell) returns (path: seq<Pos>)
    requires Valid(p) && c in Ends(g, p)
    ensures IsTrail(g, path) && path[0] == p
    ensures path[|path| - 1].val == 9 && CellOf(path[|path| - 1]) == c
    decreases 10 - p.val
  {
    if p.val == 9 {
      path := [p];
    } else {
      var q := EndsOfWitness(g, Steps(g, p), p.val + 1, c);
      StepsMembers(g, p);
      var rest := EndHasTrail(g, q, c);
      path := [p] + rest;
      forall i | 0 <= i < |path| - 1
        ensures IsStep(g, path[i], path[i + 1])
      {
        if i > 0 {
          assert path[i] == rest[i - 1] && path[i + 1] == rest[i];
        }
      }
    }
  }

  lemma TrailTail(g: HeightMap, path: seq<Pos>)
    requires IsTrail(g, path) && |path| > 1
    ensures IsTrail(g, path[1..])
  {
    var rest := path[1..];
    forall i | 0 <= i < |rest| - 1
      ensures IsStep(g, rest[i], rest[i + 1])
    {
      assert IsStep(g, path[i + 1], path[i + 2]);
    }
  }

  /** The ends of a step on from p are ends of p. */
  lemma StepEnds(g: HeightMap, p: Pos, q: Pos)
    requires Valid(p) && p.val < 9 && IsStep(g, p, q)
    ensures Valid(q) && Ends(g, q) <= Ends(g, p)
  {
    StepsMembers(g, p);
    EndsOfMember(g, Steps(g, p), p.val + 1, q);
  }

  /** And the last cell of every trail from p to height 9 is an end of p. */
  lemma {:induction false} TrailReachesEnd(g: HeightMap, path: seq<Pos>)
    requires IsTrail(g, path) && Valid(path[0]) && path[|path| - 1].val == 9
    ensures CellOf(path[|path| - 1]) in Ends(g, path[0])
    decreases |path|
  {
    if |path| > 1 {
      var p, q, rest := path[0], path[1], path[1..];
      assert p.val < 9 && q.val == p.val + 1 by {
        TrailValues(g, path);
      }
      assert IsStep(g, p, q);
      StepEnds(g, p, q);
      TrailTail(g, path);
      assert rest[0] == q && rest[|rest| - 1] == path[|path| - 1];
      TrailReachesEnd(g, rest);
    } else {
      assert Ends(g, path[0]) == {CellOf(path[0])};
    }
  }

  /** Part 1's score, in the puzzle's terms: a cell is among the ends of
      trailhead t exactly when some trail leads from t to it at height 9. */
  lemma EndsAreTrailEnds(g: HeightMap, t: Pos, c: Cell)
    requires Valid(t)
    ensures c in Ends(g, t) <==>
      exists path: seq<Pos> :: IsTrail(g, path) && path[0] == t && path[|path| - 1].val == 9 && CellOf(path[|path| - 1]) == c
  {
    if c in Ends(g, t) {
      var path := EndHasTrail(g, t, c);
    }
    forall path: seq<Pos> | IsTrail(g, path) && path[0] == t && path[|path| - 1].val == 9 && CellOf(path[|path| - 1]) == c
      ensures c in Ends(g, t)
    {
      TrailReachesEnd(g, path);
    }
  }
}
