/** The guard's patrol (day_6/simulation.js): the guard steps forward
    until an obstacle is ahead, then turns right; it either walks off the
    grid or comes back to a cell in a direction it has already walked, and
    `executePool` counts the cells where one extra obstacle traps it. */
module GuardWalk {
  import opened Wrappers

  /** `grid[y][x].symbol`, row by row. */
  type Grid = seq<seq<char>>

  /** A position and a facing: x, y and an index into `_DIRS`. */
  type State = (int, int, int)

  const Obstacle := '#'
  const Start := '^'

  /** Every row as wide as the first one, which gives `_GRID_BOUNDS`. */
  predicate Rect(grid: Grid) {
    |grid| >= 1 && forall r :: 0 <= r < |grid| ==> |grid[r]| == |grid[0]|
  }

  /** `isInsideBounds`. */
  predicate Inside(grid: Grid, x: int, y: int)
    requires Rect(grid)
  {
    0 <= x < |grid[0]| && 0 <= y < |grid|
  }

  /** `_DIRS`: up, right, down, left, with y growing downwards. */
  function DX(d: int): int {
    if d % 4 == 1 then 1 else if d % 4 == 3 then -1 else 0
  }

  function DY(d: int): int {
    if d % 4 == 0 then -1 else if d % 4 == 2 then 1 else 0
  }

  /** The cell ahead in direction d is an obstacle. */
  predicate Blocked(grid: Grid, x: int, y: int, d: int)
    requires Rect(grid)
  {
    Inside(grid, x + DX(d), y + DY(d)) && grid[y + DY(d)][x + DX(d)] == Obstacle
  }

  // ---------------------------------------------------------------------
  // The reference: the guard's rules one step at a time

  /** One step of the rules: off the grid (None), a right turn in place,
      or a step forward. */
  function Next(grid: Grid, s: State): Option<State>
    requires Rect(grid)
  {
    var (x, y, d) := s;
    var nx, ny := x + DX(d), y + DY(d);
    if !Inside(grid, nx, ny) then None
    else if grid[ny][nx] == Obstacle then Some((x, y, (d + 1) % 4))
    else Some((nx, ny, d))
  }

  /** Where the guard is after n steps of the rules, None once it has
      left. */
  function Iterate(grid: Grid, s: State, n: nat): Option<State>
    requires Rect(grid)
  {
    if n == 0 then Some(s)
    else match Iterate(grid, s, n - 1)
      case None => None
      case Some(t) => Next(grid, t)
  }

  /** The guard eventually walks off the grid. */
  ghost predicate Leaves(grid: Grid, s: State)
    requires Rect(grid)
  {
    exists n: nat :: Iterate(grid, s, n) == None
  }

  /** The guard is in the same state at two different times. */
  ghost predicate Repeats(grid: Grid, s: State)
    requires Rect(grid)
  {
    exists i: nat, j: nat :: i < j && Same(grid, s, i, j)
  }

  ghost predicate Same(grid: Grid, s: State, i: nat, j: nat)
    requires Rect(grid)
  {
    Iterate(grid, s, i).Some? && Iterate(grid, s, i) == Iterate(grid, s, j)
  }

  /** A cell with an obstacle on all four sides. */
  predicate Boxed(grid: Grid, x: int, y: int)
    requires Rect(grid)
  {
    forall d :: 0 <= d < 4 ==> Blocked(grid, x, y, d)
  }

  /** The guard reaches a boxed-in cell. */
  ghost predicate ReachesBox(grid: Grid, s: State)
    requires Rect(grid)
  {
    exists n: nat :: BoxedAt(grid, s, n)
  }

  ghost predicate BoxedAt(grid: Grid, s: State, n: nat)
    requires Rect(grid)
  {
    Iterate(grid, s, n).Some? && Boxed(grid, Iterate(grid, s, n).value.0, Iterate(grid, s, n).value.1)
  }

  lemma {:induction false} IterateAdd(grid: Grid, s: State, a: nat, b: nat)
    requires Rect(grid) && Iterate(grid, s, a).Some?
    ensures Iterate(grid, s, a + b) == Iterate(grid, Iterate(grid, s, a).value, b)
    decreases b
  {
    if b > 0 {
      IterateAdd(grid, s, a, b - 1);
    }
  }

  lemma {:induction false} IterateEarlier(grid: Grid, s: State, i: nat, j: nat)
    requires Rect(grid) && i <= j && Iterate(grid, s, j).Some?
    ensures Iterate(grid, s, i).Some?
    decreases j - i
  {
    if i < j {
      IterateEarlier(grid, s, i + 1, j);
    }
  }

  /** A state seen twice comes back forever: the guard never leaves. */
  lemma {:induction false} RepeatStays(grid: Grid, s: State, i: nat, j: nat, n: nat)
    requires Rect(grid) && i < j && Same(grid, s, i, j)
    ensures Iterate(grid, s, n).Some?
    decreases n
  {
    if n <= j {
      IterateEarlier(grid, s, n, j);
    } else {
      var t := Iterate(grid, s, j).value;
      IterateAdd(grid, s, j, n - j);
      IterateAdd(grid, s, i, n - j);
      RepeatStays(grid, s, i, j, i + (n - j));
    }
  }

  lemma RepeatNeverLeaves(grid: Grid, s: State)
    requires Rect(grid) && Repeats(grid, s)
    ensures !Leaves(grid, s)
  {
    var i: nat, j: nat :| i < j && Same(grid, s, i, j);
    forall n: nat
      ensures Iterate(grid, s, n) != None
    {
      RepeatStays(grid, s, i, j, n);
    }
  }

  // ---------------------------------------------------------------------
  // The simulation

  /** How `runSimulation` ends: false, true, or never, when the guard
      stands boxed in and turns forever because turns are not recorded. */
  datatype Outcome = Exits | Loops | Spins

  /** Every state the guard can record on this grid. */
  function AllStates(grid: Grid): set<State>
    requires Rect(grid)
  {
    set x: int, y: int, d: int | 0 <= x < |grid[0]| && 0 <= y < |grid| && 0 <= d < 4 :: (x, y, d)
  }

  /** The loop of `runSimulation` from x, y facing dir with the visited
      set so far; turns counts the right turns since the last step, and a
      fourth one in a row means the guard turns forever. */
  function Walk(grid: Grid, x: int, y: int, dir: int, visited: set<State>, turns: nat): Outcome
    requires Rect(grid) && 0 <= dir < 4 && turns <= 3 && visited <= AllStates(grid)
    decreases |AllStates(grid) - visited|, 3 - turns
  {
    var nx, ny := x + DX(dir), y + DY(dir);
    if !Inside(grid, nx, ny) then Exits
    else if grid[ny][nx] == Obstacle then
      if turns == 3 then Spins else Walk(grid, x, y, (dir + 1) % 4, visited, turns + 1)
    else if (nx, ny, dir) in visited then Loops
    else
      RecordShrinks(grid, visited, (nx, ny, dir));
      Walk(grid, nx, ny, dir, visited + {(nx, ny, dir)}, 0)
  }

  lemma RecordShrinks(grid: Grid, visited: set<State>, v: State)
    requires Rect(grid) && visited <= AllStates(grid) && v in AllStates(grid) && v !in visited
    ensures |AllStates(grid) - (visited + {v})| < |AllStates(grid) - visited|
  {
    assert AllStates(grid) - (visited + {v}) == (AllStates(grid) - visited) - {v};
  }

  /** `runSimulation(x, y, grid)`: the guard starts facing up with
      nothing visited. */
  function RunSimulation(grid: Grid, x: int, y: int): Outcome
    requires Rect(grid)
  {
    Walk(grid, x, y, 0, {}, 0)
  }

  /** Every recorded state is one the guard was in at or before step k. */
  ghost predicate Recorded(grid: Grid, s0: State, visited: set<State>, k: nat)
    requires Rect(grid)
  {
    forall v :: v in visited ==> Seen(grid, s0, v, k)
  }

  /** The guard was in state v at or before step k. */
  ghost predicate Seen(grid: Grid, s0: State, v: State, k: nat)
    requires Rect(grid)
  {
    exists m: nat :: m <= k && Iterate(grid, s0, m) == Some(v)
  }

  /** Facing d0 after t right turns. */
  function Facing(d0: int, t: int): int {
    (d0 + t) % 4
  }

  /** The turns since the last step: the guard reached x, y facing d0 at
      step k - turns and has turned right there `turns` times, each time
      with an obstacle ahead. */
  ghost predicate Turning(grid: Grid, s0: State, x: int, y: int, d0: int, turns: nat, k: nat)
    requires Rect(grid)
  {
    turns <= k && Iterate(grid, s0, k - turns) == Some((x, y, d0)) &&
    forall t :: 0 <= t < turns ==> Blocked(grid, x, y, Facing(d0, t))
  }

  /** What an outcome says about the guard: Exits that it walks off, the
      others that it comes back to a state, Spins that it stands boxed in. */
  ghost predicate Explains(grid: Grid, s0: State, out: Outcome)
    requires Rect(grid)
  {
    (out == Exits ==> Leaves(grid, s0)) &&
    (out != Exits ==> Repeats(grid, s0)) &&
    (out == Spins ==> ReachesBox(grid, s0))
  }

  /** The walk agrees with the rules: it ends with Exits only when the
      guard walks off, with Loops when a state repeats, and with Spins
      when the guard stands boxed in. */
  lemma {:induction false} WalkTrace(grid: Grid, s0: State, x: int, y: int, d0: int, visited: set<State>, turns: nat, k: nat)
    requires Rect(grid) && 0 <= d0 < 4 && turns <= 3 && visited <= AllStates(grid)
    requires Iterate(grid, s0, k) == Some((x, y, Facing(d0, turns)))
    requires Recorded(grid, s0, visited, k) && Turning(grid, s0, x, y, d0, turns, k)
    ensures Explains(grid, s0, Walk(grid, x, y, Facing(d0, turns), visited, turns))
    decreases |AllStates(grid) - visited|, 3 - turns, 1
  {
    var dir := Facing(d0, turns);
    var nx, ny := x + DX(dir), y + DY(dir);
    if !Inside(grid, nx, ny) {
      TraceExit(grid, s0, x, y, dir, visited, turns, k);
    } else if grid[ny][nx] == Obstacle {
      if turns == 3 {
        TraceSpin(grid, s0, x, y, d0, visited, k);
      } else {
        TraceTurn(grid, s0, x, y, d0, visited, turns, k);
      }
    } else if (nx, ny, dir) in visited {
      TraceSeen(grid, s0, x, y, dir, visited, turns, k);
    } else {
      TraceStep(grid, s0, x, y, dir, visited, turns, k);
    }
  }

  lemma TraceExit(grid: Grid, s0: State, x: int, y: int, dir: int, visited: set<State>, turns: nat, k: nat)
    requires Rect(grid) && 0 <= dir < 4 && turns <= 3 && visited <= AllStates(grid)
    requires Iterate(grid, s0, k) == Some((x, y, dir)) && !Inside(grid, x + DX(dir), y + DY(dir))
    ensures Explains(grid, s0, Walk(grid, x, y, dir, visited, turns))
  {
    assert Iterate(grid, s0, k + 1) == None;
  }

  lemma TraceSeen(grid: Grid, s0: State, x: int, y: int, dir: int, visited: set<State>, turns: nat, k: nat)
    requires Rect(grid) && 0 <= dir < 4 && turns <= 3 && visited <= AllStates(grid)
    requires Iterate(grid, s0, k) == Some((x, y, dir)) && Recorded(grid, s0, visited, k)
    requires Inside(grid, x + DX(dir), y + DY(dir)) && !Blocked(grid, x, y, dir)
    requires (x + DX(dir), y + DY(dir), dir) in visited
    ensures Explains(grid, s0, Walk(grid, x, y, dir, visited, turns))
  {
    var v := (x + DX(dir), y + DY(dir), dir);
    assert Seen(grid, s0, v, k);
    var m: nat :| m <= k && Iterate(grid, s0, m) == Some(v);
    assert Iterate(grid, s0, k + 1) == Some(v);
    assert Same(grid, s0, m, k + 1);
    WalkSteps(grid, x, y, dir, visited, turns);
  }

  lemma TraceSpin(grid: Grid, s0: State, x: int, y: int, d0: int, visited: set<State>, k: nat)
    requires Rect(grid) && 0 <= d0 < 4 && visited <= AllStates(grid)
    requires Iterate(grid, s0, k) == Some((x, y, Facing(d0, 3))) && Blocked(grid, x, y, Facing(d0, 3))
    requires Turning(grid, s0, x, y, d0, 3, k)
    ensures Explains(grid, s0, Walk(grid, x, y, Facing(d0, 3), visited, 3))
  {
    WalkTurns(grid, x, y, Facing(d0, 3), visited, 3);
    SpinRepeats(grid, s0, x, y, d0, k);
  }

  lemma {:induction false} TraceTurn(grid: Grid, s0: State, x: int, y: int, d0: int, visited: set<State>, turns: nat, k: nat)
    requires Rect(grid) && 0 <= d0 < 4 && turns < 3 && visited <= AllStates(grid)
    requires Iterate(grid, s0, k) == Some((x, y, Facing(d0, turns))) && Blocked(grid, x, y, Facing(d0, turns))
    requires Recorded(grid, s0, visited, k) && Turning(grid, s0, x, y, d0, turns, k)
    ensures Explains(grid, s0, Walk(grid, x, y, Facing(d0, turns), visited, turns))
    decreases |AllStates(grid) - visited|, 3 - turns, 0
  {
    TurnKeeps(grid, s0, x, y, d0, visited, turns, k);
    WalkTurns(grid, x, y, Facing(d0, turns), visited, turns);
    WalkTrace(grid, s0, x, y, d0, visited, turns + 1, k + 1);
  }

  lemma {:induction false} TraceStep(grid: Grid, s0: State, x: int, y: int, dir: int, visited: set<State>, turns: nat, k: nat)
    requires Rect(grid) && 0 <= dir < 4 && turns <= 3 && visited <= AllStates(grid)
    requires Iterate(grid, s0, k) == Some((x, y, dir)) && Recorded(grid, s0, visited, k)
    requires Inside(grid, x + DX(dir), y + DY(dir)) && !Blocked(grid, x, y, dir)
    requires (x + DX(dir), y + DY(dir), dir) !in visited
    ensures Explains(grid, s0, Walk(grid, x, y, dir, visited, turns))
    decreases |AllStates(grid) - visited|, 3 - turns, 0
  {
    var v := (x + DX(dir), y + DY(dir), dir);
    WalkSteps(grid, x, y, dir, visited, turns);
    StepKeeps(grid, s0, x, y, dir, visited, k);
    RecordShrinks(grid, visited, v);
    WalkTrace(grid, s0, v.0, v.1, dir, visited + {v}, 0, k + 1);
  }

  /** Walk in front of an obstacle. */
  lemma WalkTurns(grid: Grid, x: int, y: int, dir: int, visited: set<State>, turns: nat)
    requires Rect(grid) && 0 <= dir < 4 && turns <= 3 && visited <= AllStates(grid)
    requires Blocked(grid, x, y, dir)
    ensures turns == 3 ==> Walk(grid, x, y, dir, visited, turns) == Spins
    ensures turns < 3 ==> Walk(grid, x, y, dir, visited, turns) == Walk(grid, x, y, (dir + 1) % 4, visited, turns + 1)
  {
  }

  /** Walk with a free cell ahead. */
  lemma WalkSteps(grid: Grid, x: int, y: int, dir: int, visited: set<State>, turns: nat)
    requires Rect(grid) && 0 <= dir < 4 && turns <= 3 && visited <= AllStates(grid)
    requires Inside(grid, x + DX(dir), y + DY(dir)) && !Blocked(grid, x, y, dir)
    ensures var v := (x + DX(dir), y + DY(dir), dir);
      v in AllStates(grid) &&
      Walk(grid, x, y, dir, visited, turns) == if v in visited then Loops else Walk(grid, v.0, v.1, v.2, visited + {v}, 0)
  {
  }

  lemma TurnKeeps(grid: Grid, s0: State, x: int, y: int, d0: int, visited: set<State>, turns: nat, k: nat)
    requires Rect(grid) && 0 <= d0 < 4 && turns < 3
    requires Iterate(grid, s0, k) == Some((x, y, Facing(d0, turns))) && Blocked(grid, x, y, Facing(d0, turns))
    requires Recorded(grid, s0, visited, k) && Turning(grid, s0, x, y, d0, turns, k)
    ensures Iterate(grid, s0, k + 1) == Some((x, y, Facing(d0, turns + 1)))
    ensures Recorded(grid, s0, visited, k + 1) && Turning(grid, s0, x, y, d0, turns + 1, k + 1)
  {
    assert (Facing(d0, turns) + 1) % 4 == Facing(d0, turns + 1);
    assert Iterate(grid, s0, k + 1) == Some((x, y, Facing(d0, turns + 1)));
    RecordedLater(grid, s0, visited, k);
    assert k + 1 - (turns + 1) == k - turns;
    forall t | 0 <= t < turns + 1
      ensures Blocked(grid, x, y, Facing(d0, t))
    {
    }
  }

  /** What was recorded by step k was recorded by step k + 1. */
  lemma RecordedLater(grid: Grid, s0: State, visited: set<State>, k: nat)
    requires Rect(grid) && Recorded(grid, s0, visited, k)
    ensures Recorded(grid, s0, visited, k + 1)
  {
    forall u | u in visited
      ensures Seen(grid, s0, u, k + 1)
    {
      assert Seen(grid, s0, u, k);
      var m: nat :| m <= k && Iterate(grid, s0, m) == Some(u);
      assert m <= k + 1;
    }
  }

  lemma StepKeeps(grid: Grid, s0: State, x: int, y: int, dir: int, visited: set<State>, k: nat)
    requires Rect(grid) && 0 <= dir < 4
    requires Iterate(grid, s0, k) == Some((x, y, dir)) && Recorded(grid, s0, visited, k)
    requires Inside(grid, x + DX(dir), y + DY(dir)) && !Blocked(grid, x, y, dir)
    ensures var v := (x + DX(dir), y + DY(dir), dir);
      Iterate(grid, s0, k + 1) == Some((v.0, v.1, Facing(dir, 0))) &&
      Recorded(grid, s0, visited + {v}, k + 1) && Turning(grid, s0, v.0, v.1, dir, 0, k + 1)
  {
    var v := (x + DX(dir), y + DY(dir), dir);
    assert Iterate(grid, s0, k + 1) == Some(v);
    assert Facing(dir, 0) == dir;
    RecordedLater(grid, s0, visited, k);
    assert Seen(grid, s0, v, k + 1);
  }

  /** Four obstacles around: the guard comes back to the facing it had
      before its first turn. */
  lemma SpinRepeats(grid: Grid, s0: State, x: int, y: int, d0: int, k: nat)
    requires Rect(grid) && 0 <= d0 < 4
    requires Iterate(grid, s0, k) == Some((x, y, Facing(d0, 3))) && Blocked(grid, x, y, Facing(d0, 3))
    requires Turning(grid, s0, x, y, d0, 3, k)
    ensures Repeats(grid, s0) && ReachesBox(grid, s0)
  {
    assert Iterate(grid, s0, k + 1) == Some((x, y, (Facing(d0, 3) + 1) % 4));
    assert (Facing(d0, 3) + 1) % 4 == d0;
    assert Same(grid, s0, k - 3, k + 1);
    FourSides(grid, x, y, d0);
    assert BoxedAt(grid, s0, k);
  }

  /** Obstacles in the four facings reached by turning are obstacles on
      all four sides. */
  lemma FourSides(grid: Grid, x: int, y: int, d0: int)
    requires Rect(grid) && 0 <= d0 < 4
    requires forall t :: 0 <= t < 4 ==> Blocked(grid, x, y, Facing(d0, t))
    ensures Boxed(grid, x, y)
  {
    assert Blocked(grid, x, y, Facing(d0, 0)) && Blocked(grid, x, y, Facing(d0, 1));
    assert Blocked(grid, x, y, Facing(d0, 2)) && Blocked(grid, x, y, Facing(d0, 3));
    forall d | 0 <= d < 4
      ensures Blocked(grid, x, y, d)
    {
      if d != Facing(d0, 0) && d != Facing(d0, 1) && d != Facing(d0, 2) {
        assert d == Facing(d0, 3);
      }
    }
  }

  /** `runSimulation` returns false exactly when the guard walks off the
      grid; otherwise the guard stays on it forever, and it never returns
      at all only when the guard is boxed in. */
  lemma Simulation(grid: Grid, x: int, y: int)
    requires Rect(grid)
    ensures RunSimulation(grid, x, y) == Exits <==> Leaves(grid, (x, y, 0))
    ensures RunSimulation(grid, x, y) == Spins ==> ReachesBox(grid, (x, y, 0))
  {
    var s0 := (x, y, 0);
    assert Facing(0, 0) == 0;
    WalkTrace(grid, s0, x, y, 0, {}, 0, 0);
    if RunSimulation(grid, x, y) != Exits {
      RepeatNeverLeaves(grid, s0);
    }
  }

  // ---------------------------------------------------------------------
  // The pool

  /** `_GRID[r][c].symbol = ch`. */
  function Place(grid: Grid, c: int, r: int, ch: char): (g: Grid)
    requires Rect(grid) && Inside(grid, c, r)
    ensures Rect(g) && |g| == |grid| && |g[0]| == |grid[0]|
  {
    grid[r := grid[r][c := ch]]
  }

  /** A point the pool tries: neither an obstacle nor the start. */
  predicate Candidate(grid: Grid, c: int, r: int)
    requires Rect(grid) && Inside(grid, c, r)
  {
    grid[r][c] != Obstacle && grid[r][c] != Start
  }

  predicate AllInside(grid: Grid, points: seq<(int, int)>)
    requires Rect(grid)
  {
    forall i :: 0 <= i < |points| ==> Inside(grid, points[i].0, points[i].1)
  }

  /** `executePool(points, x, y)`: for each candidate, place an obstacle,
      run the simulation, count a loop, and write `.` back. None means a
      simulation never returns. */
  function Pool(grid: Grid, points: seq<(int, int)>, x: int, y: int): (r: Option<nat>)
    requires Rect(grid) && AllInside(grid, points)
    ensures r.Some? ==> r.value <= |points|
    decreases |points|
  {
    if |points| == 0 then Some(0)
    else
      var (c, r) := points[0];
      if !Candidate(grid, c, r) then Pool(grid, points[1..], x, y)
      else
        var out := RunSimulation(Place(grid, c, r, Obstacle), x, y);
        var rest := Pool(Place(grid, c, r, '.'), points[1..], x, y);
        if out == Spins || rest == None then None
        else Some(rest.value + (if out == Loops then 1 else 0))
  }

  /** The puzzle's grid holds only `.`, `#` and `^`. */
  predicate Plain(grid: Grid) {
    forall r, c :: 0 <= r < |grid| && 0 <= c < |grid[r]| ==> grid[r][c] in {'.', Obstacle, Start}
  }

  /** The candidates whose extra obstacle keeps the guard on the grid. */
  ghost function Trapping(grid: Grid, points: seq<(int, int)>, x: int, y: int): nat
    requires Rect(grid) && AllInside(grid, points)
    decreases |points|
  {
    if |points| == 0 then 0
    else
      var (c, r) := points[0];
      var trap := Candidate(grid, c, r) && !Leaves(Place(grid, c, r, Obstacle), (x, y, 0));
      Trapping(grid, points[1..], x, y) + (if trap then 1 else 0)
  }

  /** Some candidate's obstacle boxes the guard in. */
  predicate AnySpin(grid: Grid, points: seq<(int, int)>, x: int, y: int)
    requires Rect(grid) && AllInside(grid, points)
  {
    exists i :: 0 <= i < |points| && Candidate(grid, points[i].0, points[i].1) &&
      RunSimulation(Place(grid, points[i].0, points[i].1, Obstacle), x, y) == Spins
  }

  /** On a plain grid, writing `.` back restores it, so every candidate
      is tried on the original grid: the pool counts the candidates whose
      obstacle traps the guard, unless one of them boxes it in. */
  lemma {:induction false} PoolCounts(grid: Grid, points: seq<(int, int)>, x: int, y: int)
    requires Rect(grid) && Plain(grid) && AllInside(grid, points)
    ensures Pool(grid, points, x, y) == if AnySpin(grid, points, x, y) then None else Some(Trapping(grid, points, x, y))
    decreases |points|
  {
    if |points| > 0 {
      var (c, r) := points[0];
      assert AllInside(grid, points[1..]);
      PoolCounts(grid, points[1..], x, y);
      if Candidate(grid, c, r) {
        assert |grid[r]| == |grid[0]| && grid[r][c] == '.';
        assert grid[r][c := '.'] == grid[r];
        assert Place(grid, c, r, '.') == grid;
        Simulation(Place(grid, c, r, Obstacle), x, y);
      }
      SpinSplit(grid, points, x, y);
    }
  }

  lemma SpinSplit(grid: Grid, points: seq<(int, int)>, x: int, y: int)
    requires Rect(grid) && AllInside(grid, points) && |points| > 0
    ensures AllInside(grid, points[1..])
    ensures AnySpin(grid, points, x, y) <==>
      (Candidate(grid, points[0].0, points[0].1) && RunSimulation(Place(grid, points[0].0, points[0].1, Obstacle), x, y) == Spins) ||
      AnySpin(grid, points[1..], x, y)
  {
    if AnySpin(grid, points, x, y) {
      var i :| 0 <= i < |points| && Candidate(grid, points[i].0, points[i].1) &&
        RunSimulation(Place(grid, points[i].0, points[i].1, Obstacle), x, y) == Spins;
      if i > 0 {
        assert points[1..][i - 1] == points[i];
      }
    }
    if AnySpin(grid, points[1..], x, y) {
      var i :| 0 <= i < |points[1..]| && Candidate(grid, points[1..][i].0, points[1..][i].1) &&
        RunSimulation(Place(grid, points[1..][i].0, points[1..][i].1, Obstacle), x, y) == Spins;
      assert points[1..][i] == points[i + 1];
    }
  }
}
