/**
 * The single-food Pacman maze: a grid of text rows in which `%` is a wall,
 * `P` is where Pacman starts and `.` is the food. A state is Pacman's cell
 * and the food's cell, the latter gone once Pacman has stepped on it; the
 * goal is to have eaten the food.
 */
module Pacman {
  import opened Wrappers
  import opened SearchProblem

  type Grid = seq<string>

  /** A (row, column) cell; moves may produce negative coordinates. */
  datatype Pos = Pos(r: int, c: int)

  /** `(pacman_position, food_position | None)`. */
  datatype PacState = PacState(pacman: Pos, food: Option<Pos>)

  /** The problem fixed at construction: the grid, its dimensions and the start state. */
  datatype PacmanProblem = PacmanProblem(grid: Grid, rows: nat, cols: nat, startState: PacState)

  /**
   * The ways construction and moves fail: an empty grid has no first row to
   * measure, a grid may lack Pacman or the food, a direction may be unknown,
   * and a cell may be looked up past the end of the grid.
   */
  datatype PacmanError = EmptyGrid | NoStart | NoFood | UnknownAction(direction: string) | IndexOutOfRange

  /** Row `r`, column `c` is a cell of the grid. */
  predicate Cell(grid: Grid, r: int, c: int)
  {
    0 <= r < |grid| && 0 <= c < |grid[r]|
  }

  /** Row-major order: (r, c) is not after `p`. */
  predicate RowMajorLe(r: int, c: int, p: Pos)
  {
    r < p.r || (r == p.r && c <= p.c)
  }

  /** No cell of the grid holds `ch`. */
  ghost predicate Absent(grid: Grid, ch: char)
  {
    forall r, c :: Cell(grid, r, c) ==> grid[r][c] != ch
  }

  /** `p` holds `ch`, and no later cell in row-major order does. */
  ghost predicate IsLast(grid: Grid, ch: char, p: Pos)
  {
    && Cell(grid, p.r, p.c) && grid[p.r][p.c] == ch
    && forall r, c :: Cell(grid, r, c) && grid[r][c] == ch ==> RowMajorLe(r, c, p)
  }

  /** Row `r`, column `c` comes before position (i, j) of the scan. */
  predicate Scanned(r: int, c: int, i: int, j: int)
  {
    r < i || (r == i && c < j)
  }

  /** What the scan knows about `ch` once it has reached (i, j): the last `ch` so far, if any. */
  ghost predicate LastSoFar(grid: Grid, ch: char, found: Option<Pos>, i: int, j: int)
  {
    match found
    case None => forall r, c :: Cell(grid, r, c) && Scanned(r, c, i, j) ==> grid[r][c] != ch
    case Some(p) =>
      && Cell(grid, p.r, p.c) && grid[p.r][p.c] == ch && Scanned(p.r, p.c, i, j)
      && forall r, c :: Cell(grid, r, c) && Scanned(r, c, i, j) && grid[r][c] == ch ==> RowMajorLe(r, c, p)
  }

  /** Finishing row `i` is starting row `i + 1`. */
  lemma NextRow(grid: Grid, ch: char, found: Option<Pos>, i: int)
    requires 0 <= i < |grid| && LastSoFar(grid, ch, found, i, |grid[i]|)
    ensures LastSoFar(grid, ch, found, i + 1, 0)
  {
    forall r, c | Cell(grid, r, c) && Scanned(r, c, i + 1, 0)
      ensures Scanned(r, c, i, |grid[i]|)
    {
    }
  }

  /** Once every row is scanned, the scan has found the last `ch`, or there is none. */
  lemma ScanComplete(grid: Grid, ch: char, found: Option<Pos>)
    requires LastSoFar(grid, ch, found, |grid|, 0)
    ensures found.None? <==> Absent(grid, ch)
    ensures found.Some? ==> IsLast(grid, ch, found.value)
  {
    if found.Some? {
      var p := found.value;
      assert grid[p.r][p.c] == ch;
    }
  }

  /** A character has at most one last cell. */
  lemma {:induction false} IsLastUnique(grid: Grid, ch: char, p: Pos, q: Pos)
    requires IsLast(grid, ch, p) && IsLast(grid, ch, q)
    ensures p == q
  {
    assert RowMajorLe(p.r, p.c, q) && RowMajorLe(q.r, q.c, p);
  }

  /** The problem as construction leaves it. */
  ghost predicate Valid(p: PacmanProblem)
  {
    && p.grid != [] && p.rows == |p.grid| && p.cols == |p.grid[0]|
    && IsLast(p.grid, 'P', p.startState.pacman)
    && p.startState.food.Some? && IsLast(p.grid, '.', p.startState.food.value)
  }

  /** One row of the scan: every cell of row `i`, left to right. */
  method ScanRow(grid: Grid, i: nat, start0: Option<Pos>, food0: Option<Pos>) returns (start: Option<Pos>, food: Option<Pos>)
    requires i < |grid|
    requires LastSoFar(grid, 'P', start0, i, 0) && LastSoFar(grid, '.', food0, i, 0)
    ensures LastSoFar(grid, 'P', start, i + 1, 0) && LastSoFar(grid, '.', food, i + 1, 0)
  {
    start, food := start0, food0;
    var j := 0;
    while j < |grid[i]|
      invariant 0 <= j <= |grid[i]|
      invariant LastSoFar(grid, 'P', start, i, j)
      invariant LastSoFar(grid, '.', food, i, j)
    {
      if grid[i][j] == 'P' {
        start := Some(Pos(i, j));
      } else if grid[i][j] == '.' {
        food := Some(Pos(i, j));
      }
      j := j + 1;
    }
    NextRow(grid, 'P', start, i);
    NextRow(grid, '.', food, i);
  }

  /**
   * The scan of construction: row by row, left to right, remembering the
   * last `P` as Pacman's start and the last `.` as the food.
   */
  method ScanGrid(grid: Grid) returns (start: Option<Pos>, food: Option<Pos>)
    ensures start.None? <==> Absent(grid, 'P')
    ensures start.Some? ==> IsLast(grid, 'P', start.value)
    ensures food.None? <==> Absent(grid, '.')
    ensures food.Some? ==> IsLast(grid, '.', food.value)
  {
    start, food := None, None;
    var i := 0;
    while i < |grid|
      invariant 0 <= i <= |grid|
      invariant LastSoFar(grid, 'P', start, i, 0)
      invariant LastSoFar(grid, '.', food, i, 0)
    {
      start, food := ScanRow(grid, i, start, food);
      i := i + 1;
    }
    ScanComplete(grid, 'P', start);
    ScanComplete(grid, '.', food);
  }

  /**
   * Construction from the rows of the maze file: measures the grid, scans
   * it, and fails when Pacman or the food is missing.
   */
  method NewPacmanProblem(grid: Grid) returns (r: Result<PacmanProblem, PacmanError>)
    ensures r == Failure(EmptyGrid) <==> grid == []
    ensures r == Failure(NoStart) <==> grid != [] && Absent(grid, 'P')
    ensures r == Failure(NoFood) <==> grid != [] && !Absent(grid, 'P') && Absent(grid, '.')
    ensures r.Success? <==> grid != [] && !Absent(grid, 'P') && !Absent(grid, '.')
    ensures r.Success? ==> Valid(r.value) && r.value.grid == grid
  {
    if grid == [] {
      return Failure(EmptyGrid);
    }
    var rows := |grid|;
    var cols := |grid[0]|;
    var start, food := ScanGrid(grid);
    if start.None? {
      r := Failure(NoStart);
    } else if food.None? {
      r := Failure(NoFood);
    } else {
      r := Success(PacmanProblem(grid, rows, cols, PacState(start.value, food)));
    }
  }

  /** `get_start_states`: the one start state; the food is still there, so it is not a goal. */
  function GetStartStates(p: PacmanProblem): (r: seq<PacState>)
    ensures |r| == 1 && r[0] == p.startState
    ensures Valid(p) ==> !IsGoalState(r[0])
  {
    [p.startState]
  }

  /** `is_goal_state`: the food has been eaten, so no cell holds it any more. */
  function IsGoalState(st: PacState): (r: bool)
    ensures r <==> forall q: Pos :: st.food != Some(q)
  {
    st.food.None?
  }

  /**
   * The cell one step from `p` in a direction: up and down change the row,
   * left and right the column, always by exactly one; other directions have
   * no target.
   */
  function Target(p: Pos, direction: string): (t: Option<Pos>)
    ensures t.Some? <==> direction in {"U", "D", "L", "R"}
    ensures t.Some? ==>
      || (t.value.c == p.c && (t.value.r == p.r - 1 || t.value.r == p.r + 1))
      || (t.value.r == p.r && (t.value.c == p.c - 1 || t.value.c == p.c + 1))
    ensures t.Some? ==> (t.value.r < p.r <==> direction == "U") && (t.value.r > p.r <==> direction == "D")
    ensures t.Some? ==> (t.value.c < p.c <==> direction == "L") && (t.value.c > p.c <==> direction == "R")
  {
    if direction == "U" then Some(Pos(p.r - 1, p.c))
    else if direction == "D" then Some(Pos(p.r + 1, p.c))
    else if direction == "L" then Some(Pos(p.r, p.c - 1))
    else if direction == "R" then Some(Pos(p.r, p.c + 1))
    else None
  }

  /** The food after Pacman reaches `t`: eaten if it was there, untouched otherwise. */
  function FoodAfter(food: Option<Pos>, t: Pos): (f: Option<Pos>)
    ensures f.None? <==> food.None? || food == Some(t)
    ensures f.Some? ==> f == food
  {
    if food == Some(t) then None else food
  }

  /** Pacman may stand on `t`: it is a cell of the grid and not a wall. */
  predicate Open(grid: Grid, t: Pos)
  {
    Cell(grid, t.r, t.c) && grid[t.r][t.c] != '%'
  }

  /** The bounds test of `move` as written: `0 <= r <= rows and 0 <= c <= cols`. */
  predicate WithinGuard(p: PacmanProblem, t: Pos)
  {
    0 <= t.r <= p.rows && 0 <= t.c <= p.cols
  }

  /**
   * `move` exactly as written: its bounds guard lets `r == rows` and
   * `c == cols` through, and the cell lookup that follows then fails.
   */
  function MoveAsWritten(p: PacmanProblem, st: PacState, direction: string): (res: Result<Option<PacState>, PacmanError>)
    ensures res.Failure? ==> res.error == UnknownAction(direction) || res.error == IndexOutOfRange
    ensures res == Failure(UnknownAction(direction)) <==> Target(st.pacman, direction).None?
  {
    match Target(st.pacman, direction)
    case None => Failure(UnknownAction(direction))
    case Some(t) =>
      var newFood := FoodAfter(st.food, t);
      if WithinGuard(p, t) then
        if Cell(p.grid, t.r, t.c) then
          if p.grid[t.r][t.c] != '%' then Success(Some(PacState(t, newFood))) else Success(None)
        else Failure(IndexOutOfRange)
      else Success(None)
  }

  /**
   * `move` with the cell lookup it evidently intends: the written bounds
   * test is kept, and a target inside it that is not a cell of the grid is
   * blocked instead of failing. The step succeeds exactly when the target
   * passes the bounds test and is an open cell; Pacman then stands on it
   * and the food is eaten exactly when it was there.
   */
  function Move(p: PacmanProblem, st: PacState, direction: string): (res: Result<Option<PacState>, PacmanError>)
    ensures res.Failure? <==> Target(st.pacman, direction).None?
    ensures res.Failure? ==> res.error == UnknownAction(direction)
    ensures res.Success? ==> (res.value.Some? <==>
      WithinGuard(p, Target(st.pacman, direction).value) && Open(p.grid, Target(st.pacman, direction).value))
    ensures res.Success? && res.value.Some? ==>
      var t := Target(st.pacman, direction).value;
      && res.value.value.pacman == t
      && (res.value.value.food.None? <==> st.food.None? || st.food == Some(t))
      && (res.value.value.food.Some? ==> res.value.value.food == st.food)
  {
    match Target(st.pacman, direction)
    case None => Failure(UnknownAction(direction))
    case Some(t) =>
      var newFood := FoodAfter(st.food, t);
      if WithinGuard(p, t) && Open(p.grid, t) then Success(Some(PacState(t, newFood))) else Success(None)
  }

  /** Every row is as long as the first. */
  predicate Rectangular(p: PacmanProblem)
  {
    forall i :: 0 <= i < |p.grid| ==> |p.grid[i]| == p.cols
  }

  /**
   * On a rectangular grid the written guard fails exactly on the row just
   * below the grid and the column just right of it; everywhere else the
   * written `move` and the corrected one agree.
   */
  lemma AsWrittenFailsOnlyPastTheEdge(p: PacmanProblem, st: PacState, direction: string)
    requires p.rows == |p.grid| && Rectangular(p)
    requires Target(st.pacman, direction).Some?
    ensures
      var t := Target(st.pacman, direction).value;
      MoveAsWritten(p, st, direction) == Failure(IndexOutOfRange) <==>
        0 <= t.r <= p.rows && 0 <= t.c <= p.cols && (t.r == p.rows || t.c == p.cols)
    ensures MoveAsWritten(p, st, direction).Success? ==> MoveAsWritten(p, st, direction) == Move(p, st, direction)
  {
  }

  /**
   * On every grid, rectangular or not, the corrected move differs from the
   * written one only where the written one fails: past the end of the
   * grid's rows, or past the end of the target's own row.
   */
  lemma AsWrittenAgreesUnlessItFails(p: PacmanProblem, st: PacState, direction: string)
    ensures MoveAsWritten(p, st, direction).Success? ==> MoveAsWritten(p, st, direction) == Move(p, st, direction)
    ensures MoveAsWritten(p, st, direction) == Failure(IndexOutOfRange) <==>
      && Target(st.pacman, direction).Some?
      && WithinGuard(p, Target(st.pacman, direction).value)
      && !Cell(p.grid, Target(st.pacman, direction).value.r, Target(st.pacman, direction).value.c)
    ensures MoveAsWritten(p, st, direction) == Failure(IndexOutOfRange) ==> Move(p, st, direction) == Success(None)
  {
  }

  /**
   * A maze whose first row is shorter than the others: the bounds test uses
   * the first row's length, so the step onto the food at column 4 is
   * blocked by both moves, and the food can never be eaten.
   */
  lemma RaggedGridBlocksPastFirstRow()
    ensures
      var p := PacmanProblem(["%%%", "%%%%%%%", "%P  .%%", "%%%%%%%"], 4, 3, PacState(Pos(2, 1), Some(Pos(2, 4))));
      var st := PacState(Pos(2, 3), Some(Pos(2, 4)));
      && MoveAsWritten(p, st, "R") == Success(None)
      && Move(p, st, "R") == Success(None)
  {
  }

  /** A move from the bottom-left corner of a one-row maze: the written guard lets row 1 through. */
  lemma AsWrittenStepsOffTheGrid()
    ensures
      var p := PacmanProblem(["P."], 1, 2, PacState(Pos(0, 0), Some(Pos(0, 1))));
      && MoveAsWritten(p, p.startState, "D") == Failure(IndexOutOfRange)
      && Move(p, p.startState, "D") == Success(None)
  {
  }

  /** Once the food is eaten it stays eaten: every move from a goal state reaches a goal state. */
  lemma GoalIsAbsorbing(p: PacmanProblem, st: PacState, direction: string)
    requires IsGoalState(st)
    ensures Move(p, st, direction).Success? && Move(p, st, direction).value.Some? ==>
      IsGoalState(Move(p, st, direction).value.value)
  {
  }

  /** The move outcomes for each direction, in the order the action lists them, failures dropped. */
  function Successors(p: PacmanProblem, st: PacState): (r: seq<Successor<PacState, string>>)
    ensures forall k :: 0 <= k < |r| ==>
      r[k].cost == 1 && Move(p, st, r[k].action) == Success(Some(r[k].state))
    ensures forall d :: d in {"U", "D", "L", "R"} && Move(p, st, d).value.Some? ==>
      exists k :: 0 <= k < |r| && r[k].action == d
  {
    var up, down, left, right := StepTo(p, st, "U"), StepTo(p, st, "D"), StepTo(p, st, "L"), StepTo(p, st, "R");
    var r := up + down + left + right;
    forall d | d in {"U", "D", "L", "R"} && Move(p, st, d).value.Some?
      ensures exists k :: 0 <= k < |r| && r[k].action == d
    {
      if d == "U" {
        assert r[0] == up[0];
      } else if d == "D" {
        assert r[|up|] == down[0];
      } else if d == "L" {
        assert r[|up| + |down|] == left[0];
      } else {
        assert r[|up| + |down| + |left|] == right[0];
      }
    }
    r
  }

  /** The successor entry of one direction, if the move succeeds. */
  function StepTo(p: PacmanProblem, st: PacState, d: string): (r: seq<Successor<PacState, string>>)
    requires d in {"U", "D", "L", "R"}
    ensures |r| <= 1
    ensures r != [] <==> Move(p, st, d).value.Some?
    ensures r != [] ==> r[0].action == d && r[0].cost == 1 && Move(p, st, d) == Success(Some(r[0].state))
  {
    match Move(p, st, d)
    case Success(Some(t)) => [Successor(d, t, 1)]
    case _ => []
  }

  /** The maze as a search problem; it has no heuristic. */
  function PacmanSearchProblem(p: PacmanProblem): (r: Problem<PacState, string>)
    ensures r.startStates == GetStartStates(p) && r.heuristic.None?
    ensures forall st :: r.isGoal(st) == IsGoalState(st) && r.successors(st) == Successors(p, st)
    ensures Valid(p) ==> !r.isGoal(r.startStates[0])
  {
    Problem([p.startState], IsGoalState, st => Successors(p, st), None)
  }
}
