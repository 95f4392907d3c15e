/** The two coin-flipping MDPs from the lectures. Their tables are built the
    way the constructors build them: start from zeros and assign single
    entries, or numpy slices of rows, one statement at a time. */
module CoinMdps {
  import opened Wrappers
  import opened Numeric
  import opened MarkovDecisionProcess
  import opened DynamicProgramming
  import opened EnvWithMdp

  /** `MDPFlipCoin`: from INIT, COIN1 lands HEADS or TAILS with 0.5 each and
      COIN2 with 0.4 / 0.6; both outcomes are terminal, and TAILS pays 100.
      Entries the constructor leaves unset are 0. */
  function FlipCoin(): (m: Mdp<string>)
    ensures Shaped(m)
    ensures m.S == ["INIT", "HEADS", "TAILS"] && m.A == ["COIN1", "COIN2"]
    ensures m.T == [false, true, true] && m.I == [1.0, 0.0, 0.0]
    ensures m.discount == 1.0 && m.name == "FlipCoin"
    ensures m.P[0] == [[0.0, 0.5, 0.5], [0.0, 0.4, 0.6]]
    ensures forall s, a :: 1 <= s < 3 && 0 <= a < 2 ==> m.P[s][a] == [0.0, 0.0, 0.0]
    ensures forall s, t :: 0 <= s < 3 && 0 <= t < 3 ==>
              m.R[s][t] == if s == 0 && t == 2 then 100.0 else 0.0
  {
    var zero := [0.0, 0.0, 0.0];
    var P := [[[0.0, 0.5, 0.5], [0.0, 0.4, 0.6]], [zero, zero], [zero, zero]];
    var R := [[0.0, 0.0, 100.0], zero, zero];
    Mdp(["INIT", "HEADS", "TAILS"], [false, true, true], [1.0, 0.0, 0.0],
        ["COIN1", "COIN2"], P, R, 1.0, "FlipCoin")
  }

  lemma FlipCoinIsNormalized()
    ensures Normalized(FlipCoin())
  {
    var m := FlipCoin();
    SumPoint(m.I, 0);
    forall s, a | 0 <= s < 3 && 0 <= a < 2
      ensures Sum(m.P[s][a]) == if m.T[s] then 0.0 else 1.0
    {
      if s == 0 {
        SumTwoPoints(m.P[s][a], 1, 2);
      } else {
        SumAllZero(m.P[s][a]);
      }
    }
  }

  /** The lookahead of both coins from INIT for a value vector V: COIN1
      earns 0.5 * (V[HEADS] + V[TAILS] + 100), COIN2 earns
      0.4 * V[HEADS] + 0.6 * (V[TAILS] + 100). */
  lemma FlipCoinLookahead(V: seq<real>)
    requires |V| == 3
    ensures QRow(FlipCoin(), V, 0) == [0.5 * V[1] + 0.5 * (100.0 + V[2]), 0.4 * V[1] + 0.6 * (100.0 + V[2])]
  {
    var m := FlipCoin();
    DotTwoPoints(m.P[0][0], Targets(m, V, 0), 1, 2);
    DotTwoPoints(m.P[0][1], Targets(m, V, 0), 1, 2);
  }

  /** The terminal states HEADS and TAILS have all-zero rows, so their
      lookahead is 0 for both coins whatever V is. */
  lemma FlipCoinTerminalLookahead(V: seq<real>, i: nat)
    requires |V| == 3 && 1 <= i < 3
    ensures ZeroRows(FlipCoin(), i)
    ensures QRow(FlipCoin(), V, i) == [0.0, 0.0]
    ensures ArgMax(QRow(FlipCoin(), V, i)) == 0
  {
    var m := FlipCoin();
    FlipCoinIsNormalized();
    TerminalRowsAreZero(m, i);
    var q := QRow(m, V, i);
    forall a | 0 <= a < 2
      ensures q[a] == 0.0
    {
      DotZeroLeft(m.P[i][a], Targets(m, V, i));
    }
    ArgMaxIsFirstMaximiser(q, 0);
  }

  /** From V = 0, INIT backs up to the better coin's expected reward, 60
      (COIN1 would give 50). */
  lemma FlipCoinInitBackup()
    ensures QRow(FlipCoin(), Zeros(3), 0) == [50.0, 60.0]
    ensures BackupValue(FlipCoin(), Optimality, Zeros(3), 0) == 60.0
  {
    FlipCoinLookahead(Zeros(3));
    ArgMaxIsFirstMaximiser([50.0, 60.0], 1);
  }

  /** The first optimality sweep from V = 0 gives INIT the value 60 and
      leaves the terminal states at 0. */
  lemma FlipCoinFirstSweep()
    ensures var W := Sweep(FlipCoin(), Optimality, Zeros(3)).values;
            |W| == 3 && W[0] == 60.0 && W[1] == 0.0 && W[2] == 0.0
  {
    var m := FlipCoin();
    var Z := Zeros(3);
    var W := Sweep(m, Optimality, Z).values;
    FlipCoinInitBackup();
    SweepValueIsBackup(m, Optimality, Z, 0);
    assert W[..0] + Z[0..] == Z;
    FlipCoinSweepTerminal(1);
    FlipCoinSweepTerminal(2);
  }

  lemma FlipCoinSweepTerminal(j: nat)
    requires 1 <= j < 3
    ensures Sweep(FlipCoin(), Optimality, Zeros(3)).values[j] == 0.0
  {
    var m := FlipCoin();
    var Z := Zeros(3);
    var W := Sweep(m, Optimality, Z).values;
    SweepValueIsBackup(m, Optimality, Z, j);
    FlipCoinTerminalLookahead(W[..j] + Z[j..], j);
    ZeroRowsBackUpToZero(m, Optimality, W[..j] + Z[j..], j);
  }

  /** Value iteration on the coin MDP stops after that one sweep. */
  lemma FlipCoinOptimalValues()
    ensures Iterate(FlipCoin(), Optimality, Zeros(3), 1000).values == [60.0, 0.0, 0.0]
    ensures Iterate(FlipCoin(), Optimality, Zeros(3), 1000).sweeps == 1
  {
    FlipCoinFirstSweepValues();
    NoDropStopsAfterOneSweep(FlipCoin(), Optimality, 1000);
  }

  lemma FlipCoinFirstSweepValues()
    ensures Sweep(FlipCoin(), Optimality, Zeros(3)).values == [60.0, 0.0, 0.0]
  {
    FlipCoinFirstSweep();
  }

  /** With V = (60, 0, 0) the lookahead from INIT is 50 for COIN1 and 60
      for COIN2, so COIN2 (index 1) is the argmax; in the terminal states
      every lookahead is 0 and the argmax is index 0. */
  lemma FlipCoinArgMaxes()
    ensures QRow(FlipCoin(), [60.0, 0.0, 0.0], 0) == [50.0, 60.0]
    ensures ArgMax(QRow(FlipCoin(), [60.0, 0.0, 0.0], 0)) == 1
    ensures ArgMax(QRow(FlipCoin(), [60.0, 0.0, 0.0], 1)) == 0
    ensures ArgMax(QRow(FlipCoin(), [60.0, 0.0, 0.0], 2)) == 0
  {
    var V := [60.0, 0.0, 0.0];
    FlipCoinLookahead(V);
    ArgMaxIsFirstMaximiser([50.0, 60.0], 1);
    FlipCoinTerminalLookahead(V, 1);
    FlipCoinTerminalLookahead(V, 2);
  }

  /** Extraction as written from V = (60, 0, 0): the INIT row is filled
      with the index 1 of COIN2 and the terminal rows with index 0. */
  lemma FlipCoinIndexExtraction()
    ensures var p := ExtractPolicy(FlipCoin(), [60.0, 0.0, 0.0], UniformPolicy(3, 2));
            |p| == 3 && p[0] == [1.0, 1.0] && p[1] == [0.0, 0.0] && p[2] == [0.0, 0.0]
  {
    FlipCoinArgMaxes();
    var p := ExtractPolicy(FlipCoin(), [60.0, 0.0, 0.0], UniformPolicy(3, 2));
    assert |p[0]| == 2 && |p[1]| == 2 && |p[2]| == 2;
  }

  /** Value iteration on the coin MDP returns V(INIT) = 60 (COIN2 is
      better) and the index-filled policy rows (1, 1), (0, 0), (0, 0). */
  lemma FlipCoinValueIteration()
    ensures var (V, p) := ValueIteration(FlipCoin());
            && V == [60.0, 0.0, 0.0]
            && |p| == 3 && p[0] == [1.0, 1.0] && p[1] == [0.0, 0.0] && p[2] == [0.0, 0.0]
  {
    FlipCoinOptimalValues();
    assert Budget(1000) == 1000;
    FlipCoinIndexExtraction();
  }

  /** A policy whose INIT row is (1, 1) is not a distribution, and its
      expectation backup in INIT adds both coins' lookaheads: 110 rather
      than the optimal 60. */
  lemma IndexRowOverCounts(p: seq<seq<real>>)
    requires |p| == 3 && p[0] == [1.0, 1.0] && p[1] == [0.0, 0.0] && p[2] == [0.0, 0.0]
    ensures Sum(p[0]) == 2.0
    ensures BackupValue(FlipCoin(), Expectation(p), [60.0, 0.0, 0.0], 0) == 110.0
    ensures BackupValue(FlipCoin(), Optimality, [60.0, 0.0, 0.0], 0) == 60.0
  {
    FlipCoinArgMaxes();
    var row := [1.0, 1.0];
    assert Sum(row) == 2.0;
    DotTwoPoints(row, QRow(FlipCoin(), [60.0, 0.0, 0.0], 0), 0, 1);
  }

  /** The policy value iteration returns for the coin MDP is not a
      distribution (its INIT row sums to 2), and evaluating it for one backup
      gives 110 in INIT instead of the optimal 60. */
  lemma IndexFilledPolicyIsNotADistribution()
    ensures var r := ValueIteration(FlipCoin());
            && Sum(r.1[0]) == 2.0
            && BackupValue(FlipCoin(), Expectation(r.1), r.0, 0) == 110.0
            && BackupValue(FlipCoin(), Optimality, r.0, 0) == 60.0
  {
    FlipCoinValueIteration();
    IndexRowOverCounts(ValueIteration(FlipCoin()).1);
  }

  /** The one-hot extraction picks COIN2 in INIT and COIN1 in the terminal
      states, each with probability 1. */
  lemma FlipCoinGreedyValueIteration()
    ensures var r := GreedyValueIteration(FlipCoin());
            && r.0 == [60.0, 0.0, 0.0]
            && |r.1| == 3 && r.1[0] == [0.0, 1.0] && r.1[1] == [1.0, 0.0] && r.1[2] == [1.0, 0.0]
  {
    FlipCoinValueIteration();
    FlipCoinArgMaxes();
    GreedyRows(GreedyValueIteration(FlipCoin()).1);
  }

  lemma GreedyRows(p: seq<seq<real>>)
    requires |p| == 3 && forall i :: 0 <= i < 3 ==> |p[i]| == 2
    requires p[0][0] == 0.0 && p[0][1] == 1.0
    requires p[1][0] == 1.0 && p[1][1] == 0.0
    requires p[2][0] == 1.0 && p[2][1] == 0.0
    ensures p[0] == [0.0, 1.0] && p[1] == [1.0, 0.0] && p[2] == [1.0, 0.0]
  {
  }

  // ---------------------------------------------------------------------
  // Two coins
  // ---------------------------------------------------------------------

  const Init: nat := 0
  const Heads1: nat := 1
  const Tails1: nat := 2
  const Heads2: nat := 3
  const Tails2: nat := 4

  /** The rows of INIT: COIN_A lands HEADS_1 or TAILS_1 with 0.5 each,
      COIN_B with 0.4 / 0.6. */
  const FirstFlip: seq<seq<real>> := [[0.0, 0.5, 0.5, 0.0, 0.0], [0.0, 0.4, 0.6, 0.0, 0.0]]

  /** The rows of a state after the first flip: the same coins, landing
      HEADS_2 or TAILS_2. */
  const SecondFlip: seq<seq<real>> := [[0.0, 0.0, 0.0, 0.5, 0.5], [0.0, 0.0, 0.0, 0.4, 0.6]]

  /** The rows of INIT when the second flip is written into them as well:
      the slice assignment sets the HEADS_2 and TAILS_2 entries only, so the
      first-flip entries stay. */
  const BothFlips: seq<seq<real>> := [[0.0, 0.5, 0.5, 0.5, 0.5], [0.0, 0.4, 0.6, 0.4, 0.6]]

  /** The rows of a state the constructor never writes. */
  const NoFlip: seq<seq<real>> := [[0.0, 0.0, 0.0, 0.0, 0.0], [0.0, 0.0, 0.0, 0.0, 0.0]]

  /** The shared part of both two-coin constructions: the first flip from
      INIT, and the second flip assigned to the numpy row slice `lo:hi`, that
      is to every state s with lo <= s < hi. */
  function TwoCoinsWithSecondFlip(lo: nat, hi: nat): (m: Mdp<string>)
    ensures Shaped(m)
    ensures m.S == ["INIT", "HEADS_1", "TAILS_1", "HEADS_2", "TAILS_2"] && m.A == ["COIN_A", "COIN_B"]
    ensures m.T == [false, false, false, true, true] && m.I == [1.0, 0.0, 0.0, 0.0, 0.0]
    ensures m.discount == 1.0 && m.name == "FlipTwoCoins"
    ensures m.P[Init] == if lo <= Init < hi then BothFlips else FirstFlip
    ensures forall s :: Init < s < 5 ==> m.P[s] == if lo <= s < hi then SecondFlip else NoFlip
    ensures m.R[Init][Tails1] == 100.0 && m.R[Init][Tails2] == 100.0
    ensures forall s, t :: 0 <= s < 5 && 0 <= t < 5 && !(s == Init && (t == Tails1 || t == Tails2)) ==>
              m.R[s][t] == 0.0
  {
    var P := seq(5, s => if s == Init then (if lo <= s < hi then BothFlips else FirstFlip)
                         else if lo <= s < hi then SecondFlip else NoFlip);
    var zero := Zeros(5);
    var R := [[0.0, 0.0, 100.0, 0.0, 100.0], zero, zero, zero, zero];
    Mdp(["INIT", "HEADS_1", "TAILS_1", "HEADS_2", "TAILS_2"], [false, false, false, true, true],
        [1.0, 0.0, 0.0, 0.0, 0.0], ["COIN_A", "COIN_B"], P, R, 1.0, "FlipTwoCoins")
  }

  /** `MDPFlipTwoCoins` as written: the second flip is assigned to the slice
      `1:2`, which holds HEADS_1 only. */
  function FlipTwoCoins(): (m: Mdp<string>)
    ensures Shaped(m) && |m.S| == 5 && m.S[Tails1] == "TAILS_1" && !m.T[Tails1]
    ensures m.P[Heads1] == SecondFlip && m.P[Tails1] == NoFlip
    ensures ZeroRows(m, Tails1)
  {
    TwoCoinsWithSecondFlip(1, 2)
  }

  /** As written, TAILS_1 is a non-terminal state with no way out: its rows
      sum to 0, so the MDP breaks the probability invariant, and both dynamic
      programming algorithms leave its value at 0. */
  lemma FlipTwoCoinsTailsOneIsStuck()
    ensures var m := FlipTwoCoins();
            && !Normalized(m)
            && Sum(m.P[Tails1][0]) == 0.0
            && PolicyEvaluation(m, UniformPolicy(5, 2))[Tails1] == 0.0
            && ValueIteration(m).0[Tails1] == 0.0
  {
    var m := FlipTwoCoins();
    SumAllZero(m.P[Tails1][0]);
  }

  /** What the two-coin constructor does get right: both coins' rows from
      INIT and from HEADS_1 are distributions. */
  lemma FlipTwoCoinsFlipRowsSumToOne(a: nat)
    requires a < 2
    ensures Sum(FlipTwoCoins().P[Init][a]) == 1.0
    ensures Sum(FlipTwoCoins().P[Heads1][a]) == 1.0
  {
    var m := FlipTwoCoins();
    SumTwoPoints(m.P[Init][a], Heads1, Tails1);
    SumTwoPoints(m.P[Heads1][a], Heads2, Tails2);
  }

  /** In the environment built on the two-coin MDP as written, a flip taken
      in TAILS_1 (with a positive draw) leaves no current state, and asking
      whether the episode is finished then raises TypeError. */
  lemma TailsOneStepRaises(env: MdpEnv<string>, a: nat, rand: real)
    requires env.mdp == FlipTwoCoins() && env.cur == Some(Tails1) && Valid(env)
    requires a < 2 && rand > 0.0
    ensures var r := EnvWithMdp.PerformAction(env, ByIndex(a), rand);
            r.Ok? && r.value.cur.None? && EnvWithMdp.IsFinished(r.value) == Err(TypeError)
  {
    StepFromZeroRowsLosesState(env, a, rand);
  }

  /** The evidently intended construction: the slice `1:3` covers both
      HEADS_1 and TAILS_1. */
  function FlipTwoCoinsIntended(): (m: Mdp<string>)
    ensures Shaped(m) && |m.S| == 5 && !m.T[Tails1]
    ensures forall a :: 0 <= a < |m.A| ==> m.P[Tails1][a] == m.P[Heads1][a]
  {
    TwoCoinsWithSecondFlip(1, 3)
  }

  lemma FlipTwoCoinsIntendedIsNormalized()
    ensures Normalized(FlipTwoCoinsIntended())
  {
    var m := FlipTwoCoinsIntended();
    SumPoint(m.I, 0);
    forall s, a | 0 <= s < 5 && 0 <= a < 2
      ensures Sum(m.P[s][a]) == if m.T[s] then 0.0 else 1.0
    {
      FlipTwoCoinsIntendedRowSum(s, a);
    }
  }

  /** Each transition row of the intended two-coin model sums to one,
      except the rows of the terminal states, which are all zero. */
  lemma FlipTwoCoinsIntendedRowSum(s: nat, a: nat)
    requires s < 5 && a < 2
    ensures var m := FlipTwoCoinsIntended();
      Sum(m.P[s][a]) == if m.T[s] then 0.0 else 1.0
  {
    var m := FlipTwoCoinsIntended();
    if s == Init {
      SumTwoPoints(m.P[s][a], Heads1, Tails1);
    } else if s < 3 {
      SumTwoPoints(m.P[s][a], Heads2, Tails2);
    } else {
      SumAllZero(m.P[s][a]);
    }
  }
}
