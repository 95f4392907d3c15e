/** The maze environment (`EnvMaze`): an agent on a character grid where
    '.' and ' ' are free cells, 'T' is an exit and 'W' is a wall. A move
    into the border or a wall leaves the agent in place and is remembered as
    a bump; with probability `stochasticity` an action has no effect. The
    slip draw and the cell chosen by `reset` are explicit parameters. */
module EnvMaze {
  import opened Wrappers
  import opened Numeric

  /** The grid used when none (or an empty one) is given: 6 rows of 5, the
      exit in the top-left corner and a wall with a gap in row 3. */
  const DefaultGrid: seq<seq<char>> := [
    ['T', '.', '.', '.', '.'],
    ['.', '.', '.', '.', '.'],
    ['.', '.', '.', '.', '.'],
    ['W', 'W', '.', 'W', 'W'],
    ['.', '.', '.', '.', '.'],
    ['.', '.', '.', '.', '.']
  ]

  /** The action names, in index order. */
  const Actions: seq<string> := ["LEFT", "RIGHT", "UP", "DOWN"]

  datatype Maze = Maze(
    grid: seq<seq<char>>,
    row: int,
    col: int,
    prevBumped: bool,
    bumpPenalty: real,
    stochasticity: real,
    lastReward: Option<real>)
  {
    function NumRows(): nat { |grid| }

    /** The width is the length of the first row (0 for an empty grid). */
    function NumCols(): nat { if |grid| == 0 then 0 else |grid[0]| }

    /** Every row has the width of the first. */
    predicate Rectangular()
    {
      forall r :: 0 <= r < |grid| ==> |grid[r]| == NumCols()
    }

    predicate InGrid(r: int, c: int)
    {
      0 <= r < NumRows() && 0 <= c < NumCols()
    }

    /** The character at an in-grid cell. */
    function At(r: int, c: int): char
      requires Rectangular() && InGrid(r, c)
    {
      grid[r][c]
    }

    /** The state the model keeps between calls: a rectangular grid and the
        agent on one of its cells. */
    predicate Valid()
    {
      Rectangular() && InGrid(row, col)
    }
  }

  /** `EnvMaze(char_grid, stochasticity, bump_penalty)`: a missing or empty
      grid is replaced by the default one; the agent starts at (0, 0), has
      not bumped, and no reward has been recorded. */
  function NewMaze(charGrid: Option<seq<seq<char>>> := None, stochasticity: real := 0.0, bumpPenalty: real := 0.0)
    : (m: Maze)
    ensures m.grid == if charGrid.None? || charGrid.value == [] then DefaultGrid else charGrid.value
    ensures m.row == 0 && m.col == 0 && !m.prevBumped && m.lastReward.None?
    ensures m.bumpPenalty == bumpPenalty && m.stochasticity == stochasticity
  {
    var grid := if charGrid.None? || charGrid.value == [] then DefaultGrid else charGrid.value;
    Maze(grid, 0, 0, false, bumpPenalty, stochasticity, None)
  }

  /** `numStates`: one state per cell. Every cell's number is below it, and
      every number below it is the number of a cell, so it counts the cells
      exactly. */
  function NumStates(m: Maze): (n: nat)
    ensures m.Valid() ==> m.row * m.NumCols() + m.col < n
    ensures forall r, c :: m.InGrid(r, c) ==> r * m.NumCols() + c < n
    ensures m.NumCols() > 0 ==> forall o :: 0 <= o < n ==> m.InGrid(o / m.NumCols(), o % m.NumCols())
  {
    CellNumbersBelow(m);
    m.NumRows() * m.NumCols()
  }

  /** Cell numbers r * n_cols + c of the grid are exactly 0 .. n_rows * n_cols - 1. */
  lemma CellNumbersBelow(m: Maze)
    ensures forall r, c :: m.InGrid(r, c) ==> r * m.NumCols() + c < m.NumRows() * m.NumCols()
    ensures m.NumCols() > 0 ==>
              forall o :: 0 <= o < m.NumRows() * m.NumCols() ==> m.InGrid(o / m.NumCols(), o % m.NumCols())
  {
    var rows, cols := m.NumRows(), m.NumCols();
    forall r, c | m.InGrid(r, c)
      ensures r * cols + c < rows * cols
    {
      MulMono(r + 1, rows, cols);
    }
    if cols > 0 {
      forall o | 0 <= o < rows * cols
        ensures m.InGrid(o / cols, o % cols)
      {
        if o / cols >= rows {
          MulMono(rows, o / cols, cols);
        }
      }
    }
  }

  /** `numActions`. */
  function NumActions(m: Maze): (n: nat)
    ensures n == 4
  {
    |Actions|
  }

  /** `isFinished`: the agent stands on an exit. Whether the episode is
      over depends on the observation alone: it is the exit test of the cell
      the observation numbers. */
  function IsFinished(m: Maze): (r: bool)
    requires m.Valid()
    ensures var o := GetObservation(m);
            r <==> m.grid[o / m.NumCols()][o % m.NumCols()] == 'T'
  {
    m.At(m.row, m.col) == 'T'
  }

  /** `getObservation`: the cell number row * n_cols + col. */
  function GetObservation(m: Maze): (o: int)
    requires m.Valid()
    ensures 0 <= o < NumStates(m)
    ensures o / m.NumCols() == m.row && o % m.NumCols() == m.col
  {
    var o := m.row * m.NumCols() + m.col;
    DivModUnique(o, m.NumCols(), m.row, m.col);
    MulMono(m.row + 1, m.NumRows(), m.NumCols());
    o
  }

  /** `reset`, given the cell its sampling loop settles on: the agent is
      placed there; nothing else changes. The loop only accepts a '.' or ' '
      cell, which is the precondition here. */
  function Reset(m: Maze, row: nat, col: nat): (r: Maze)
    requires m.Rectangular() && m.InGrid(row, col)
    requires m.At(row, col) == '.' || m.At(row, col) == ' '
    ensures r.Valid() && !IsFinished(r) && r.At(r.row, r.col) != 'W'
    ensures r.row == row && r.col == col
    ensures r.grid == m.grid && r.prevBumped == m.prevBumped && r.lastReward == m.lastReward
  {
    m.(row := row, col := col)
  }

  /** The target cell of a named move from (row, col); any other name does
      not move. */
  function Target(name: string, row: int, col: int): (int, int)
  {
    if name == "LEFT" then (row, col - 1)
    else if name == "RIGHT" then (row, col + 1)
    else if name == "UP" then (row - 1, col)
    else if name == "DOWN" then (row + 1, col)
    else (row, col)
  }

  /** The name an action stands for: a name is itself, and an integer
      indexes `A` as Python does (negative from the end); an index out of
      range names nothing. */
  function ActionName(action: ActionRef): (r: Option<string>)
    ensures action.ByName? ==> r == Some(action.name)
    ensures action.ByIndex? ==> (r.Some? <==> -|Actions| <= action.index < |Actions|)
    ensures r.Some? && action.ByIndex? ==> r.value in Actions
    ensures r.Some? && action.ByIndex? ==>
              r.value == Actions[if action.index < 0 then action.index + |Actions| else action.index]
  {
    match action
    case ByName(n) => Some(n)
    case ByIndex(i) => match PyIndex(|Actions|, i)
                       case Some(k) => Some(Actions[k])
                       case None => None
  }

  /** `performAction(action)` with the slip draw `draw` (`random.random()`):
      a draw below the stochasticity only records a reward of -1; otherwise
      an integer action is turned into its name (IndexError when out of
      range) and the agent moves to the target cell unless it is off the
      grid or a wall, which counts as a bump. */
  function PerformAction(m: Maze, action: ActionRef, draw: real): (r: Result<Maze>)
    requires m.Valid()
    ensures r.Err? <==> draw >= m.stochasticity && action.ByIndex? && PyIndex(|Actions|, action.index).None?
    ensures r.Err? ==> r.error == IndexError
    ensures r.Ok? ==> r.value.Valid() && r.value.grid == m.grid
                      && r.value.bumpPenalty == m.bumpPenalty && r.value.stochasticity == m.stochasticity
  {
    if draw < m.stochasticity then Ok(m.(lastReward := Some(-1.0)))
    else
      var name := ActionName(action);
      if name.None? then Err(IndexError)
      else
        var (newRow, newCol) := Target(name.value, m.row, m.col);
        var bumped := if newRow < 0 || newRow >= m.NumRows() then true
                      else if newCol < 0 || newCol >= m.NumCols() then true
                      else m.grid[newRow][newCol] == 'W';
        if bumped then Ok(m.(prevBumped := true))
        else Ok(m.(row := newRow, col := newCol, prevBumped := false))
  }

  /** `getReward`: 100 on an exit; otherwise the bump penalty if the last
      move bumped; otherwise -1 (checked in that order). */
  function GetReward(m: Maze): (r: real)
    requires m.Valid()
    ensures IsFinished(m) ==> r == 100.0
    ensures !IsFinished(m) && m.prevBumped ==> r == m.bumpPenalty
    ensures !IsFinished(m) && !m.prevBumped ==> r == -1.0
  {
    if m.At(m.row, m.col) == 'T' then 100.0
    else if m.prevBumped then m.bumpPenalty
    else -1.0
  }

  // ---------------------------------------------------------------------
  // Properties
  // ---------------------------------------------------------------------

  /** Two positions with the same observation are the same position. */
  lemma ObservationIsInjective(m1: Maze, m2: Maze)
    requires m1.Valid() && m2.Valid() && m1.grid == m2.grid
    ensures GetObservation(m1) == GetObservation(m2) <==> m1.row == m2.row && m1.col == m2.col
  {
    var o1 := GetObservation(m1);
    var o2 := GetObservation(m2);
    assert m1.NumCols() == m2.NumCols();
    if o1 == o2 {
      assert m1.row == o1 / m1.NumCols() == m2.row;
    }
  }

  /** A slip changes neither the position nor the bump flag, so the next
      reward is the one before the slip: the -1 it records is never read. */
  lemma SlipRepeatsReward(m: Maze, action: ActionRef, draw: real)
    requires m.Valid() && draw < m.stochasticity
    ensures var r := PerformAction(m, action, draw);
            && r.Ok? && r.value.row == m.row && r.value.col == m.col
            && r.value.prevBumped == m.prevBumped
            && GetReward(r.value) == GetReward(m)
  {
  }

  /** Without a slip, a move action, given by its name or by any index
      (negative ones count from the end), either reaches the adjacent cell in
      its direction, which is inside the grid and not a wall, and clears the
      bump flag; or leaves the agent in place and sets it. */
  lemma MoveOrBump(m: Maze, action: ActionRef, draw: real)
    requires m.Valid() && draw >= m.stochasticity
    requires ActionName(action).Some? && ActionName(action).value in Actions
    ensures var r := PerformAction(m, action, draw).value;
            var (tr, tc) := Target(ActionName(action).value, m.row, m.col);
            && (r.prevBumped <==> !(m.InGrid(tr, tc) && m.At(tr, tc) != 'W'))
            && (r.prevBumped ==> r.row == m.row && r.col == m.col)
            && (!r.prevBumped ==> r.row == tr && r.col == tc)
            && (r.row - m.row) * (r.row - m.row) + (r.col - m.col) * (r.col - m.col) <= 1
  {
  }

  /** The integer -1 is the last action, DOWN, exactly as the name is. */
  lemma NegativeIndexIsDown(m: Maze, draw: real)
    requires m.Valid() && draw >= m.stochasticity
    ensures PerformAction(m, ByIndex(-1), draw) == PerformAction(m, ByName("DOWN"), draw)
  {
  }

  /** A name that is not an action neither moves nor bumps (unless the agent
      already stands on a wall, which only the start cell allows). */
  lemma UnknownNameStaysPut(m: Maze, name: string, draw: real)
    requires m.Valid() && draw >= m.stochasticity && name !in Actions
    requires m.At(m.row, m.col) != 'W'
    ensures var r := PerformAction(m, ByName(name), draw).value;
            r.row == m.row && r.col == m.col && !r.prevBumped
  {
  }

  /** The agent never steps onto a wall: a valid position off the walls
      stays off them after any action. */
  lemma NeverOnWall(m: Maze, action: ActionRef, draw: real)
    requires m.Valid() && m.At(m.row, m.col) != 'W'
    ensures var r := PerformAction(m, action, draw);
            r.Ok? ==> r.value.At(r.value.row, r.value.col) != 'W'
  {
  }

  /** After a step without a slip, the reward reports an exit first, then a
      bump, then the step cost. */
  lemma RewardAfterStep(m: Maze, action: ActionRef, draw: real)
    requires m.Valid() && draw >= m.stochasticity
    requires PerformAction(m, action, draw).Ok?
    ensures var r := PerformAction(m, action, draw).value;
            GetReward(r) == if IsFinished(r) then 100.0
                            else if r.prevBumped then m.bumpPenalty
                            else -1.0
  {
  }
}
