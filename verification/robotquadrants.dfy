/** Restroom robots (day_14/solution.js): robots move with fixed velocities
    on a 101 by 103 floor that wraps at the edges; a precomputed map tells
    each cell's quadrant and a tally counts the robots per quadrant. Part 1
    is the product of the four tallies after 100 seconds. */
module RobotQuadrants {
  import opened Wrappers

  /** `bounds_x` and `bounds_y`. */
  const Width := 101
  const Height := 103

  /** `quad_defs`: the last column of the west half, the first column of
      the east half, the last row of the north half, the first row of the
      south half. */
  const QuadDefs: seq<int> := [49, 51, 50, 52]

  /** A robot. Its own `quad` is `undefined` (None) until its first update:
      the parser puts `quad: 'm'` into the velocity object instead. */
  datatype Bot = Bot(x: int, y: int, vx: int, vy: int, quad: Option<int>)

  // ---------------------------------------------------------------------
  // Euclidean remainder facts

  /** A remainder is determined by any decomposition with a remainder in
      range. */
  lemma ModUnique(a: int, m: int, q: int, r: int)
    requires m > 0 && 0 <= r < m && a == m * q + r
    ensures a % m == r
  {
    var q0, r0 := a / m, a % m;
    assert a == m * q0 + r0;
    assert m * (q - q0) == r0 - r;
    MulBounds(m, q - q0);
  }

  lemma MulBounds(m: int, d: int)
    requires m > 0
    ensures d >= 1 ==> m * d >= m
    ensures d <= -1 ==> m * d <= -m
  {
    if d >= 1 {
      assert m * d == m + m * (d - 1);
    } else if d <= -1 {
      assert m * d == -m + m * (d + 1);
    }
  }

  /** `wrapAround` on one coordinate: one bound added or taken away. */
  function WrapAround(n: int, bound: int): (r: int)
    requires bound > 0
    ensures -bound <= n < 2 * bound ==> 0 <= r < bound && r == n % bound
  {
    var r := if n >= bound then n - bound else if n < 0 then bound + n else n;
    WrapIsMod(n, bound, r);
    r
  }

  lemma WrapIsMod(n: int, bound: int, r: int)
    requires bound > 0 && r == if n >= bound then n - bound else if n < 0 then bound + n else n
    ensures -bound <= n < 2 * bound ==> 0 <= r < bound && r == n % bound
  {
    if -bound <= n < 2 * bound {
      if n >= bound {
        ModUnique(n, bound, 1, r);
      } else if n < 0 {
        ModUnique(n, bound, -1, r);
      } else {
        ModUnique(n, bound, 0, r);
      }
    }
  }

  /** Taking the remainder first does not change the next remainder. */
  lemma ModAdd(a: int, b: int, m: int)
    requires m > 0
    ensures (a % m + b) % m == (a + b) % m
  {
    var t := a + b;
    assert a == m * (a / m) + a % m;
    assert t == m * (t / m) + t % m;
    assert a % m + b == m * (t / m - a / m) + t % m;
    ModUnique(a % m + b, m, t / m - a / m, t % m);
  }

  // ---------------------------------------------------------------------
  // The quadrant map

  /** `getQuadrant(x, y, quad_defs)`: 0 top left, 1 bottom left, 2 top
      right, 3 bottom right, -1 on a middle line. */
  function GetQuadrant(x: int, y: int, defs: seq<int>): int
    requires |defs| == 4
  {
    var yquad := if y <= defs[2] then 0 else if y >= defs[3] then 1 else -1;
    if yquad < 0 then yquad
    else
      var xquad := if x <= defs[0] then 0 else if x >= defs[1] then 2 else -1;
      if xquad < 0 then xquad else yquad + xquad
  }

  /** The puzzle's quadrants: the middle column and middle row of the
      floor belong to none. */
  function PuzzleQuadrant(x: int, y: int): int {
    var midX, midY := Width / 2, Height / 2;
    if x == midX || y == midY then -1
    else if x < midX && y < midY then 0
    else if x < midX then 1
    else if y < midY then 2
    else 3
  }

  /** With `quad_defs` the source's quadrants are the puzzle's: -1 exactly
      on column 50 or row 51. */
  lemma QuadrantsAgree(x: int, y: int)
    ensures GetQuadrant(x, y, QuadDefs) == PuzzleQuadrant(x, y)
    ensures GetQuadrant(x, y, QuadDefs) == -1 <==> x == 50 || y == 51
  {
  }

  /** `buildMap(bounds_x, bounds_y)`: rows 0 to bounds_y, each with cells
      0 to bounds_x, one more of each than the floor has. */
  function BuildMap(boundsX: nat, boundsY: nat): (map': seq<seq<char>>)
    ensures |map'| == boundsY + 1
    ensures forall y :: 0 <= y < |map'| ==> |map'[y]| == boundsX + 1
  {
    seq(boundsY + 1, y => seq(boundsX + 1, x => '.'))
  }

  /** `setMapQuadrants`: every cell replaced by its quadrant. */
  function SetMapQuadrants(defs: seq<int>, cells: seq<seq<char>>): (quadMap: seq<seq<int>>)
    requires |defs| == 4
    ensures |quadMap| == |cells|
    ensures forall y :: 0 <= y < |cells| ==> |quadMap[y]| == |cells[y]|
    ensures forall y, x :: 0 <= y < |cells| && 0 <= x < |cells[y]| ==> quadMap[y][x] == GetQuadrant(x, y, defs)
  {
    seq(|cells|, y requires 0 <= y < |cells| => seq(|cells[y]|, x => GetQuadrant(x, y, defs)))
  }

  function QuadMap(): seq<seq<int>> {
    SetMapQuadrants(QuadDefs, BuildMap(Width, Height))
  }

  /** Every position on the floor has a cell, holding its puzzle quadrant. */
  lemma QuadMapCovers(x: int, y: int)
    requires 0 <= x < Width && 0 <= y < Height
    ensures y < |QuadMap()| && x < |QuadMap()[y]|
    ensures QuadMap()[y][x] == PuzzleQuadrant(x, y) && -1 <= QuadMap()[y][x] < 4
  {
    QuadrantsAgree(x, y);
  }

  // ---------------------------------------------------------------------
  // Robots and the tally

  /** A robot as the puzzle input places it: on the floor, moving less than
      the floor's size per second, with no quadrant yet or a valid one. */
  predicate ValidBot(b: Bot) {
    0 <= b.x < Width && 0 <= b.y < Height && -Width < b.vx < Width && -Height < b.vy < Height &&
    (b.quad.None? || -1 <= b.quad.value < 4)
  }

  predicate AllValid(bots: seq<Bot>) {
    forall i :: 0 <= i < |bots| ==> ValidBot(bots[i])
  }

  /** A quadrant map covering the floor, each cell -1 or a quadrant. */
  predicate Covers(quadMap: seq<seq<int>>) {
    |quadMap| >= Height &&
    forall y :: 0 <= y < Height ==> |quadMap[y]| >= Width && forall x :: 0 <= x < Width ==> -1 <= quadMap[y][x] < 4
  }

  lemma QuadMapIsCover()
    ensures Covers(QuadMap())
  {
    forall y, x | 0 <= y < Height && 0 <= x < Width
      ensures y < |QuadMap()| && x < |QuadMap()[y]| && -1 <= QuadMap()[y][x] < 4
    {
      QuadMapCovers(x, y);
    }
  }

  /** The robots whose recorded quadrant is q. */
  function Count(bots: seq<Bot>, q: int): (n: nat)
    ensures n <= |bots|
  {
    if |bots| == 0 then 0
    else (if bots[0].quad == Some(q) then 1 else 0) + Count(bots[1..], q)
  }

  /** One robot's move: position plus velocity, wrapped onto the floor. */
  function Move(b: Bot): (r: Bot)
    requires ValidBot(b)
    ensures ValidBot(r) && r.vx == b.vx && r.vy == b.vy && r.quad == b.quad
    ensures r.x == (b.x + b.vx) % Width && r.y == (b.y + b.vy) % Height
  {
    b.(x := WrapAround(b.x + b.vx, Width), y := WrapAround(b.y + b.vy, Height))
  }

  /** `setQuad`: the robot leaves the tally of the quadrant it had, if any,
      and joins the tally of the quadrant of its cell, if any; so the tally
      changes exactly as the robots' recorded quadrants do. */
  function SetQuad(b: Bot, quadMap: seq<seq<int>>, quads: seq<int>): (r: (Bot, seq<int>))
    requires ValidBot(b) && Covers(quadMap) && |quads| == 4
    ensures r.0 == b.(quad := Some(quadMap[b.y][b.x])) && ValidBot(r.0)
    ensures |r.1| == 4 && forall q :: 0 <= q < 4 ==> r.1[q] - quads[q] == Count([r.0], q) - Count([b], q)
  {
    var quad := quadMap[b.y][b.x];
    var left := if b.quad.Some? && b.quad.value >= 0 then quads[b.quad.value := quads[b.quad.value] - 1] else quads;
    if quad < 0 then (b.(quad := Some(-1)), left)
    else (b.(quad := Some(quad)), left[quad := left[quad] + 1])
  }

  /** A robot's first update only adds: it had no quadrant to leave. */
  lemma FirstUpdate(b: Bot, quadMap: seq<seq<int>>, quads: seq<int>)
    requires ValidBot(b) && Covers(quadMap) && |quads| == 4 && b.quad.None?
    ensures forall q :: 0 <= q < 4 ==> SetQuad(b, quadMap, quads).1[q] >= quads[q]
  {
  }

  /** A robot after its move and update. */
  function Settle(b: Bot, quadMap: seq<seq<int>>): Bot
    requires ValidBot(b) && Covers(quadMap)
  {
    var m := Move(b);
    m.(quad := Some(quadMap[m.y][m.x]))
  }

  /** One second: the `for (let bot of bots)` loop. */
  function Tick(bots: seq<Bot>, quadMap: seq<seq<int>>, quads: seq<int>): (r: (seq<Bot>, seq<int>))
    requires AllValid(bots) && Covers(quadMap) && |quads| == 4
    ensures |r.0| == |bots| && |r.1| == 4 && AllValid(r.0)
    ensures forall i :: 0 <= i < |bots| ==> r.0[i] == Settle(bots[i], quadMap)
    ensures forall q :: 0 <= q < 4 ==> r.1[q] - quads[q] == Count(r.0, q) - Count(bots, q)
  {
    if |bots| == 0 then ([], quads)
    else
      var first := SetQuad(Move(bots[0]), quadMap, quads);
      var rest := Tick(bots[1..], quadMap, first.1);
      var r := ([first.0] + rest.0, rest.1);
      assert r.0[1..] == rest.0;
      r
  }

  /** Where a robot stands after n seconds on the wrapping floor. */
  function After(b: Bot, n: nat): (int, int) {
    ((b.x + n * b.vx) % Width, (b.y + n * b.vy) % Height)
  }

  /** n iterations of the main loop: every robot stands where n moves take
      it and, after at least one second, records its cell's quadrant; the
      tally changes as the recorded quadrants do. */
  function Seconds(bots: seq<Bot>, quadMap: seq<seq<int>>, quads: seq<int>, n: nat): (r: (seq<Bot>, seq<int>))
    requires AllValid(bots) && Covers(quadMap) && |quads| == 4
    ensures |r.0| == |bots| && |r.1| == 4 && AllValid(r.0)
    ensures forall i :: 0 <= i < |bots| ==> (r.0[i].x, r.0[i].y) == After(bots[i], n) && r.0[i].vx == bots[i].vx && r.0[i].vy == bots[i].vy
    ensures n >= 1 ==> forall i :: 0 <= i < |bots| ==> r.0[i].quad == Some(quadMap[r.0[i].y][r.0[i].x])
    ensures forall q :: 0 <= q < 4 ==> r.1[q] - quads[q] == Count(r.0, q) - Count(bots, q)
    decreases n
  {
    if n == 0 then
      assert forall i :: 0 <= i < |bots| ==> After(bots[i], 0) == (bots[i].x, bots[i].y);
      (bots, quads)
    else
      var t := Tick(bots, quadMap, quads);
      var r := Seconds(t.0, quadMap, t.1, n - 1);
      AfterStep(bots, t.0, r.0, n);
      r
  }

  lemma AfterStep(bots: seq<Bot>, next: seq<Bot>, last: seq<Bot>, n: nat)
    requires n >= 1 && |next| == |bots| == |last| && AllValid(bots)
    requires forall i :: 0 <= i < |bots| ==> next[i].x == (bots[i].x + bots[i].vx) % Width && next[i].y == (bots[i].y + bots[i].vy) % Height
    requires forall i :: 0 <= i < |bots| ==> next[i].vx == bots[i].vx && next[i].vy == bots[i].vy
    requires forall i :: 0 <= i < |bots| ==> (last[i].x, last[i].y) == After(next[i], n - 1)
    ensures forall i :: 0 <= i < |bots| ==> (last[i].x, last[i].y) == After(bots[i], n)
  {
    forall i | 0 <= i < |bots|
      ensures (last[i].x, last[i].y) == After(bots[i], n)
    {
      var b := bots[i];
      WrapSteps(b.x, b.vx, n, Width);
      WrapSteps(b.y, b.vy, n, Height);
    }
  }

  /** Along one axis: one wrapped step and then n - 1 more land where n
      steps from the start do. */
  lemma WrapSteps(p: int, v: int, n: nat, w: int)
    requires n >= 1 && w > 0
    ensures ((p + v) % w + (n - 1) * v) % w == (p + n * v) % w
  {
    ModAdd(p + v, (n - 1) * v, w);
    assert p + v + (n - 1) * v == p + n * v;
  }

  /** The robots standing in puzzle quadrant q after n seconds. */
  function InQuadrant(bots: seq<Bot>, q: int, n: nat): (k: nat)
    ensures k <= |bots|
  {
    if |bots| == 0 then 0
    else
      var p := After(bots[0], n);
      (if PuzzleQuadrant(p.0, p.1) == q then 1 else 0) + InQuadrant(bots[1..], q, n)
  }

  /** The robots as parsed: valid, none with a quadrant yet. */
  predicate Fresh(bots: seq<Bot>) {
    AllValid(bots) && forall i :: 0 <= i < |bots| ==> bots[i].quad.None?
  }

  /** Part 1: the product of the four tallies once the 100th second is
      over. */
  function Part1(bots: seq<Bot>): int
    requires Fresh(bots)
  {
    QuadMapIsCover();
    var r := Seconds(bots, QuadMap(), [0, 0, 0, 0], 100);
    r.1[0] * r.1[1] * r.1[2] * r.1[3]
  }

  /** A map that holds the puzzle's quadrant in every cell of the floor. */
  predicate Faithful(quadMap: seq<seq<int>>)
    requires Covers(quadMap)
  {
    forall y, x :: 0 <= y < Height && 0 <= x < Width ==> quadMap[y][x] == PuzzleQuadrant(x, y)
  }

  /** Part 1 is the product of the numbers of robots in each quadrant of
      the floor after 100 seconds; the middle lines count nowhere. */
  lemma Part1Quadrants(bots: seq<Bot>)
    requires Fresh(bots)
    ensures Part1(bots) == InQuadrant(bots, 0, 100) * InQuadrant(bots, 1, 100) * InQuadrant(bots, 2, 100) * InQuadrant(bots, 3, 100)
  {
    QuadMapIsCover();
    forall y, x | 0 <= y < Height && 0 <= x < Width
      ensures QuadMap()[y][x] == PuzzleQuadrant(x, y)
    {
      QuadMapCovers(x, y);
    }
    TallyQuadrants(bots, QuadMap(), 100);
  }

  /** After n >= 1 seconds from fresh robots, tally q is the number of
      robots standing in quadrant q. */
  lemma TallyQuadrants(bots: seq<Bot>, quadMap: seq<seq<int>>, n: nat)
    requires Fresh(bots) && Covers(quadMap) && Faithful(quadMap) && n >= 1
    ensures forall q :: 0 <= q < 4 ==> Seconds(bots, quadMap, [0, 0, 0, 0], n).1[q] == InQuadrant(bots, q, n)
  {
    var r := Seconds(bots, quadMap, [0, 0, 0, 0], n);
    forall i | 0 <= i < |bots|
      ensures r.0[i].quad == Some(PuzzleQuadrant(After(bots[i], n).0, After(bots[i], n).1))
    {
      assert r.0[i].quad == Some(quadMap[r.0[i].y][r.0[i].x]);
    }
    forall q | 0 <= q < 4
      ensures r.1[q] == InQuadrant(bots, q, n)
    {
      NoneCounted(bots, q);
      CountsQuadrant(bots, r.0, q, n);
    }
  }

  lemma {:induction false} NoneCounted(bots: seq<Bot>, q: int)
    requires forall i :: 0 <= i < |bots| ==> bots[i].quad.None?
    ensures Count(bots, q) == 0
  {
    if |bots| > 0 {
      NoneCounted(bots[1..], q);
    }
  }

  /** Counting recorded quadrants is counting the robots' positions. */
  lemma {:induction false} CountsQuadrant(bots: seq<Bot>, later: seq<Bot>, q: int, n: nat)
    requires |later| == |bots|
    requires forall i :: 0 <= i < |bots| ==> later[i].quad == Some(PuzzleQuadrant(After(bots[i], n).0, After(bots[i], n).1))
    ensures Count(later, q) == InQuadrant(bots, q, n)
  {
    if |bots| > 0 {
      CountsQuadrant(bots[1..], later[1..], q, n);
    }
  }
}
