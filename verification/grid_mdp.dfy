/** The grid-world MDP builder (`MDPGrid`). Cell (r, c) of an
    n_rows x n_cols grid is state r * n_cols + c; state 0 is the only terminal
    state; a move succeeds with probability 1 - stochasticity and otherwise
    leaves the agent in place; a move into the border always stays put;
    entering the terminal state earns 100 and every other transition -1. */
module GridMdp {
  import opened Wrappers
  import opened Numeric
  import opened MarkovDecisionProcess

  const Left: nat := 0
  const Right: nat := 1
  const Up: nat := 2
  const Down: nat := 3

  /** The action list: only LEFT and RIGHT on a single-row grid. */
  function GridActions(nRows: nat): seq<string>
  {
    if nRows == 1 then ["LEFT", "RIGHT"] else ["LEFT", "RIGHT", "UP", "DOWN"]
  }

  /** The state number of cell (r, c). */
  function CellState(nCols: nat, r: nat, c: nat): nat
  {
    r * nCols + c
  }

  /** The target of a successful move of action `a` from state `s`, or None
      when the move runs into the border. */
  function Neighbour(nRows: nat, nCols: nat, s: nat, a: nat): Option<nat>
    requires nCols > 0
  {
    var r := s / nCols;
    var c := s % nCols;
    if a == Left then (if c > 0 then Some(s - 1) else None)
    else if a == Right then (if c < nCols - 1 then Some(s + 1) else None)
    else if a == Up then (if r > 0 then Some(s - nCols) else None)
    else (if r < nRows - 1 then Some(s + nCols) else None)
  }

  /** P[s][a][t]: all zero for a terminal s; otherwise the neighbour gets
      1 - stochasticity and s itself gets stochasticity, or s gets 1 when the
      move hits the border. */
  function Transition(nRows: nat, nCols: nat, stochasticity: real, T: seq<bool>, s: nat, a: nat, t: nat): real
    requires nCols > 0 && s < |T|
  {
    if T[s] then 0.0
    else
      match Neighbour(nRows, nCols, s, a)
      case Some(u) => if t == u then 1.0 - stochasticity else if t == s then stochasticity else 0.0
      case None => if t == s then 1.0 else 0.0
  }

  /** `MDPGrid(n_rows, n_cols, stochasticity, discount)`. An empty grid fails
      on `T[0] = True` (IndexError); a one-cell grid has no non-terminal state
      and fails dividing by zero in the initial distribution. */
  function Grid(nRows: nat := 3, nCols: nat := 4, stochasticity: real := 0.0, discount: real := 1.0)
    : (r: Result<Mdp<int>>)
    ensures r.Ok? <==> nRows * nCols >= 2
    ensures r == Err(IndexError) <==> nRows * nCols == 0
    ensures r == Err(ZeroDivisionError) <==> nRows * nCols == 1
    ensures r.Ok? ==>
              var m := r.value;
              && Shaped(m)
              && |m.S| == nRows * nCols
              && (forall s :: 0 <= s < |m.S| ==> m.S[s] == s)
              && m.A == GridActions(nRows)
              && (forall s :: 0 <= s < |m.S| ==> (m.T[s] <==> s == 0))
              && (forall s, t :: 0 <= s < |m.S| && 0 <= t < |m.S| ==>
                    m.R[s][t] == if m.T[t] then 100.0 else -1.0)
              && m.discount == discount && m.name == "Grid"
  {
    var n := nRows * nCols;
    if n == 0 then Err(IndexError)
    else if n == 1 then Err(ZeroDivisionError)
    else
      var S := seq(n, s => s as int);
      var A := GridActions(nRows);
      var T := seq(n, s => s == 0);
      var I := seq(n, s requires 0 <= s < n => if T[s] then 0.0 else 1.0 / ((n - 1) as real));
      assert nCols > 0;
      var P := seq(n, s requires 0 <= s < n =>
                 seq(|A|, a requires 0 <= a < |A| => seq(n, t requires 0 <= t < n => Transition(nRows, nCols, stochasticity, T, s, a, t))));
      var R := seq(n, s => seq(n, t requires 0 <= t < n => if T[t] then 100.0 else -1.0));
      Ok(Mdp(S, T, I, A, P, R, discount, "Grid"))
  }

  // ---------------------------------------------------------------------
  // Cell numbering
  // ---------------------------------------------------------------------

  /** Cell numbering is a bijection between the cells and 0..n-1. */
  lemma CellStateRoundTrip(nRows: nat, nCols: nat, r: nat, c: nat)
    requires r < nRows && c < nCols
    ensures CellState(nCols, r, c) < nRows * nCols
    ensures CellState(nCols, r, c) / nCols == r
    ensures CellState(nCols, r, c) % nCols == c
  {
    DivModUnique(CellState(nCols, r, c), nCols, r, c);
    MulAtLeast(nRows - r, nCols);
    assert (nRows - r) * nCols == nRows * nCols - r * nCols;
  }

  lemma StateCellRoundTrip(nRows: nat, nCols: nat, s: nat)
    requires s < nRows * nCols
    ensures nCols > 0 && s / nCols < nRows && CellState(nCols, s / nCols, s % nCols) == s
  {
    assert nCols > 0;
    DivBelow(s, nRows, nCols);
  }

  /** A successful move lands on the adjacent cell in the action's
      direction, which lies inside the grid; a move fails exactly when the
      agent stands on the border in that direction. */
  lemma NeighbourIsAdjacentCell(nRows: nat, nCols: nat, s: nat, a: nat)
    requires s < nRows * nCols && a < 4
    requires nCols > 0
    ensures var r := s / nCols;
            var c := s % nCols;
            var n := Neighbour(nRows, nCols, s, a);
            n.Some? ==>
              && n.value < nRows * nCols && n.value != s
              && (a == Left ==> c > 0 && n.value == CellState(nCols, r, c - 1))
              && (a == Right ==> c + 1 < nCols && n.value == CellState(nCols, r, c + 1))
              && (a == Up ==> r > 0 && n.value == CellState(nCols, r - 1, c))
              && (a == Down ==> r + 1 < nRows && n.value == CellState(nCols, r + 1, c))
    ensures var r := s / nCols;
            var c := s % nCols;
            var fails := Neighbour(nRows, nCols, s, a).None?;
            && (a == Left ==> (fails <==> c == 0))
            && (a == Right ==> (fails <==> c == nCols - 1))
            && (a == Up ==> (fails <==> r == 0))
            && (a == Down ==> (fails <==> r == nRows - 1))
  {
    StateCellRoundTrip(nRows, nCols, s);
    var r := s / nCols;
    var c := s % nCols;
    assert s == r * nCols + c;
    MulMono(r + 1, nRows, nCols);
    assert (r + 1) * nCols == r * nCols + nCols;
    if a == Up && r > 0 {
      assert (r - 1) * nCols == r * nCols - nCols;
    } else if a == Down && r < nRows - 1 {
      MulMono(r + 2, nRows, nCols);
      assert (r + 2) * nCols == r * nCols + nCols + nCols;
    }
  }

  // ---------------------------------------------------------------------
  // Probabilities
  // ---------------------------------------------------------------------

  /** Every transition row of a non-terminal state sums to 1, whatever the
      stochasticity; every row of the terminal state is all zeros; the row's
      support is the state itself and its neighbour in the action's
      direction. */
  lemma GridRows(nRows: nat, nCols: nat, stochasticity: real, discount: real, s: nat, a: nat)
    requires nRows * nCols >= 2
    requires s < nRows * nCols && a < |GridActions(nRows)|
    ensures var m := Grid(nRows, nCols, stochasticity, discount).value;
            && (m.T[s] ==> forall t :: 0 <= t < |m.S| ==> m.P[s][a][t] == 0.0)
            && (!m.T[s] ==> Sum(m.P[s][a]) == 1.0)
            && (!m.T[s] ==> forall t :: (0 <= t < |m.S| && t != s
                              && Neighbour(nRows, nCols, s, a) != Some(t)) ==> m.P[s][a][t] == 0.0)
  {
    var m := Grid(nRows, nCols, stochasticity, discount).value;
    var row := m.P[s][a];
    assert nCols > 0;
    NeighbourIsAdjacentCell(nRows, nCols, s, a);
    if !m.T[s] {
      match Neighbour(nRows, nCols, s, a)
      case Some(u) =>
        SumTwoPoints(row, u, s);
      case None =>
        SumPoint(row, s);
    }
  }

  /** The two entries of a non-terminal row: the neighbour gets
      1 - stochasticity and the state itself stochasticity, or 1 when the move
      runs into the border. */
  lemma GridRowEntries(nRows: nat, nCols: nat, stochasticity: real, discount: real, s: nat, a: nat)
    requires nRows * nCols >= 2
    requires s < nRows * nCols && a < |GridActions(nRows)|
    ensures var m := Grid(nRows, nCols, stochasticity, discount).value;
            nCols > 0 && !m.T[s] ==>
              match Neighbour(nRows, nCols, s, a)
              case Some(u) => u < |m.S| && m.P[s][a][u] == 1.0 - stochasticity && m.P[s][a][s] == stochasticity
              case None => m.P[s][a][s] == 1.0
  {
    assert nCols > 0;
    NeighbourIsAdjacentCell(nRows, nCols, s, a);
  }

  /** The initial distribution puts nothing on the terminal state and
      1/(n-1) on every other state, so it sums to 1. */
  lemma GridInitialDistribution(nRows: nat, nCols: nat, stochasticity: real, discount: real)
    requires nRows * nCols >= 2
    ensures var m := Grid(nRows, nCols, stochasticity, discount).value;
            && m.I[0] == 0.0
            && (forall s :: 1 <= s < |m.S| ==> m.I[s] == 1.0 / ((|m.S| - 1) as real))
            && Sum(m.I) == 1.0
  {
    var m := Grid(nRows, nCols, stochasticity, discount).value;
    var n := |m.S|;
    var rest := m.I[1..];
    SumConst(rest, 1.0 / ((n - 1) as real));
    SumFirst(m.I);
  }

  /** With a stochasticity in [0, 1] the grid satisfies the full probability
      invariant of an MDP. */
  lemma GridIsNormalized(nRows: nat, nCols: nat, stochasticity: real, discount: real)
    requires nRows * nCols >= 2
    requires 0.0 <= stochasticity <= 1.0
    ensures var m := Grid(nRows, nCols, stochasticity, discount).value;
            Shaped(m) && Normalized(m)
  {
    var m := Grid(nRows, nCols, stochasticity, discount).value;
    GridInitialDistribution(nRows, nCols, stochasticity, discount);
    forall s, a | 0 <= s < |m.S| && 0 <= a < |m.A|
      ensures Sum(m.P[s][a]) == if m.T[s] then 0.0 else 1.0
    {
      GridRows(nRows, nCols, stochasticity, discount, s, a);
      if m.T[s] {
        SumAllZero(m.P[s][a]);
      }
    }
  }
}
