# Reinforcement learning on finite MDPs, modelled in Dafny

This project models the algorithmic core of a small reinforcement-learning
teaching code base:

- **The MDP record.** States, terminal flags, initial distribution, actions,
  the transition tensor `P[s][a][s']`, the reward matrix `R[s][s']`, the
  discount and a name (`MarkovDecisionProcess`).
- **Its concrete instances.** The grid world (`GridMdp`), plus the one-coin
  and two-coin flipping games (`CoinMdps`).
- **Dynamic programming** (`DynamicProgramming`):
  - iterative policy evaluation;
  - value iteration;
  - both with in-place (Gauss-Seidel) sweeps, a stop rule that counts only
    value drops, and policy extraction by argmax.
- **Two environments.**
  - `EnvWithMdp` wraps an MDP and samples successors by inverse-CDF.
  - `EnvMaze` is a character-grid maze with walls, bumps, a slip probability
    and a prioritised reward.
- **The agents.** The base agent and the first-action agent (`Agents`), and
  the every-visit Monte-Carlo state-value agent (`MonteCarlo`).
- **The episodic experiment loop** `doEpisodes` (`Episodic`). It is generic
  over any environment and agent.

Probabilities and values are Dafny `real`s: exact rationals in place of
IEEE doubles. Python exceptions become `Err(...)` or `None` results
(`Wrappers`). Every random draw is an explicit parameter:
- `random.random()` is a real;
- `random.randint` is a uniform draw in [0, 1);
- the cell that the maze's reset loop settles on is a parameter.

The remaining nondeterminism of the episode loop lives in the environment
and agent states it threads through.

## Model

| member | source | states |
|---|---|---|
| Numeric.ArgMax | dynamic_programming.py:93 | `np.argmax` is the first index holding the maximum, so ties go to the lowest action index |
| Numeric.PyIndex | environments/env_maze.py:94-95 | indexing a list with an int succeeds exactly for -n <= i < n; a negative index counts from the end; anything else raises IndexError |
| Numeric.IndexOf | environments/env_with_mdp.py:63-64 | `list.index` returns the first position holding the name, and fails exactly when the name is absent |
| Numeric.RandInt | agents/agent_montecarlo_statevalues.py:62 | `random.randint(lo, hi)` returns a value in the closed range [lo, hi] |
| MarkovDecisionProcess.TerminalRowsAreZero | mdps/tmp.py:90-95 | in a normalised MDP every transition row of a terminal state is all zeros |
| MarkovDecisionProcess.ConstructionDoesNotValidate | mdps/markov_decision_process.py:7-25 | the constructor stores the tables without checking shapes or row sums, so it accepts tables that break the probability invariant; the name defaults to "no name" |
| MarkovDecisionProcess.IsTerminalState | mdps/markov_decision_process.py:27-35 | in a normalised MDP with at least one action, a state is terminal exactly when all its transition rows are zero |
| DynamicProgramming.SweepPrefix | dynamic_programming.py:38-43 | after the first k in-place updates (with any update rule), states from k on keep their old values; delta is non-negative, bounds every drop old - new among the updated states, and is one of those drops (or 0) |
| DynamicProgramming.Sweep | dynamic_programming.py:38-43 | one sweep over all states keeps one value per state; its delta is non-negative, at least every drop old - new, and equal to one of them (or 0 when no state dropped) |
| DynamicProgramming.InPlaceSweepIsUnique | dynamic_programming.py:39-43 | for any update rule, the in-place sweep is the one and only vector whose entry j is the rule applied to the new values before j and the old values from j on |
| DynamicProgramming.SweepIsGaussSeidel | dynamic_programming.py:39-42 | a sweep's result is the unique vector whose entry j is the backup of j computed from the new values before j and the old values from j on (both directions) |
| DynamicProgramming.SweepValueIsBackup | dynamic_programming.py:83-86 | each state's new value reads the values already updated in the same sweep for earlier states |
| DynamicProgramming.ZeroRowsBackUpToZero | dynamic_programming.py:41-42 | a state with all-zero transition rows backs up to 0 under both the expectation and the optimality backup, whatever V, R and the policy are |
| DynamicProgramming.BackupValue | dynamic_programming.py:85-86 | the optimality backup is the largest one-step lookahead over the actions, and some action attains it |
| DynamicProgramming.ExpectationAtMostOptimal | dynamic_programming.py:41-42 | under a policy row that is a distribution, the expectation backup never exceeds the optimality backup |
| DynamicProgramming.SweepStopsIffNoStateDrops | dynamic_programming.py:43-45 | the stop test passes exactly when no state dropped by 0.01 or more; rises never block it |
| DynamicProgramming.Iterate | dynamic_programming.py:37-45 | the values are V after exactly the sweeps made, and the last delta is that of the final sweep; at most n sweeps, and at least one when n > 0; every sweep before the last had a delta of at least 0.01; the loop stops before the budget only after a sweep whose delta is below 0.01 |
| DynamicProgramming.StopsAtIsUnique | dynamic_programming.py:37-45 | the loop `for _ in range(n)` with `break` on delta < 0.01 leaves exactly one possible number of sweeps |
| DynamicProgramming.SweepZeroesZeroRow | dynamic_programming.py:83-86 | one sweep sets a zero-row state to 0, whatever value it had |
| DynamicProgramming.ZeroRowStateStaysZero | dynamic_programming.py:37-45 | a zero-row state that starts at 0 is 0 after any number of sweeps |
| DynamicProgramming.ZeroRowStatesStayZero | dynamic_programming.py:80-89 | from V = 0, every zero-row state (any terminal state) ends the loop with value 0 |
| DynamicProgramming.NoDropStopsAfterOneSweep | dynamic_programming.py:77-89 | from V = 0, if the first sweep leaves no value negative, the loop stops after exactly one sweep |
| DynamicProgramming.PolicyEvaluation | dynamic_programming.py:23-48 | the result is V = 0 swept exactly as many times as the stop rule allows within n_iterations (none for a count of 0 or less); one value per state; every zero-row state has value 0 |
| DynamicProgramming.UniformPolicy | dynamic_programming.py:72-74 | the default policy gives every action of every state the probability 1 / (number of actions), so each row is a distribution |
| DynamicProgramming.ExtractPolicy | dynamic_programming.py:91-93 | as written, every cell of row i holds the argmax index of the lookahead, so the row is not one-hot |
| DynamicProgramming.ExtractionOverwritesPolicy | dynamic_programming.py:91-96 | the returned policy does not depend on the contents of the policy passed in: every cell is overwritten |
| DynamicProgramming.ValueIteration | dynamic_programming.py:51-96 | the values are V = 0 swept with the optimality backup as many times as the stop rule allows within n_iterations; one value per state, 0 for every zero-row state; a states-by-actions policy filled with argmax indices |
| DynamicProgramming.ExtractGreedyPolicy | dynamic_programming.py:91-93 | the intended extraction: row i is one-hot on the first maximising action, sums to 1, and has that action as its argmax |
| DynamicProgramming.GreedyPolicyReproducesOptimalBackup | dynamic_programming.py:85-93 | evaluating the one-hot greedy policy for one backup gives exactly the optimality backup |
| DynamicProgramming.GreedyPolicyReproducesOptimalBackups | dynamic_programming.py:85-93 | the same round trip in every state at once |
| DynamicProgramming.GreedyValueIteration | dynamic_programming.py:51-96 | same values as value iteration, with a one-hot greedy policy whose expectation backup equals the optimality backup in every state |
| GridMdp.Grid | mdps/tmp.py:22-101 | fails with IndexError on an empty grid and ZeroDivisionError on a one-cell grid; otherwise: n_rows*n_cols states; only LEFT/RIGHT on one row; exactly state 0 terminal; R[s][t] is 100 into the terminal state and -1 otherwise |
| GridMdp.CellStateRoundTrip | mdps/tmp.py:37-39 | cell (r, c) is numbered r*n_cols + c, below n_states, and decodes back to (r, c) |
| GridMdp.StateCellRoundTrip | mdps/tmp.py:25-39 | every state number below n_states is the number of the cell (s / n_cols, s % n_cols) |
| GridMdp.NeighbourIsAdjacentCell | mdps/tmp.py:48-79 | a successful move lands on the in-grid adjacent cell in the action's direction; a move fails if and only if the agent is on the matching border |
| GridMdp.GridRows | mdps/tmp.py:48-95 | a non-terminal row sums to 1 for any stochasticity, and is supported on the state and its neighbour only; a terminal row is all zeros |
| GridMdp.GridRowEntries | mdps/tmp.py:50-79 | the neighbour gets 1 - stochasticity and the state itself stochasticity; a move into the border stays put with probability 1 |
| GridMdp.GridInitialDistribution | mdps/tmp.py:85-88 | the terminal state has initial mass 0 and every other state 1/(n-1); the total is 1 |
| GridMdp.GridIsNormalized | mdps/tmp.py:35-95 | with stochasticity in [0, 1] the grid satisfies the full probability invariant |
| CoinMdps.FlipCoin | mdps/mdp_flip_coins.py:8-40 | from INIT, COIN1 gives HEADS/TAILS with 0.5/0.5 and COIN2 with 0.4/0.6; HEADS and TAILS are terminal with zero rows; all initial mass is on INIT; only INIT to TAILS pays 100; discount 1 |
| CoinMdps.FlipCoinIsNormalized | mdps/mdp_flip_coins.py:16-27 | the one-coin tables satisfy the probability invariant |
| CoinMdps.FlipCoinLookahead | mdps/mdp_flip_coins.py:16-32 | the lookahead from INIT is 0.5 V(HEADS) + 0.5 (100 + V(TAILS)) for COIN1 and 0.4 V(HEADS) + 0.6 (100 + V(TAILS)) for COIN2 |
| CoinMdps.FlipCoinTerminalLookahead | mdps/mdp_flip_coins.py:17-24 | in HEADS and TAILS every lookahead is 0, and the argmax is action 0 |
| CoinMdps.FlipCoinInitBackup | dynamic_programming.py:84-86 | from V = 0, INIT backs up to 60, the better coin (COIN1 would give 50) |
| CoinMdps.FlipCoinFirstSweep | dynamic_programming.py:82-87 | the first optimality sweep gives (60, 0, 0) |
| CoinMdps.FlipCoinSweepTerminal | dynamic_programming.py:83-86 | the terminal states stay at 0 in the first sweep |
| CoinMdps.FlipCoinOptimalValues | dynamic_programming.py:80-89 | value iteration on one coin stops after one sweep with V = (60, 0, 0) |
| CoinMdps.FlipCoinArgMaxes | dynamic_programming.py:91-93 | at V = (60, 0, 0), the lookahead from INIT is (50, 60), so COIN2 is chosen; the terminal states choose action 0 |
| CoinMdps.FlipCoinIndexExtraction | dynamic_programming.py:91-93 | the extracted rows are (1, 1) for INIT and (0, 0) for HEADS and TAILS |
| CoinMdps.FlipCoinValueIteration | dynamic_programming.py:51-96 | end to end: V = (60, 0, 0), and the INIT row is filled with index 1 (COIN2) |
| CoinMdps.IndexRowOverCounts | dynamic_programming.py:39-42 | an INIT row (1, 1) sums to 2, and evaluating it adds both coins' lookaheads: 110 instead of the optimal 60 |
| CoinMdps.IndexFilledPolicyIsNotADistribution | dynamic_programming.py:91-96 | the policy value iteration returns for one coin is not a distribution, and its expectation backup in INIT is 110, not 60 |
| CoinMdps.FlipCoinGreedyValueIteration | dynamic_programming.py:91-93 | the one-hot extraction gives (0, 1) in INIT and (1, 0) in HEADS and TAILS |
| CoinMdps.TwoCoinsWithSecondFlip | mdps/mdp_flip_coins.py:72-104 | the two-coin tables with the second flip assigned to the row slice lo:hi (a slice that includes INIT adds the second-flip entries to its first-flip rows, as numpy's slice assignment does); HEADS_2 and TAILS_2 are terminal; 100 is paid on INIT to TAILS_1 and on the unreachable INIT to TAILS_2, and every other reward is 0 |
| CoinMdps.FlipTwoCoins | mdps/mdp_flip_coins.py:87-90 | as written, the slice 1:2 fills HEADS_1 only; the non-terminal TAILS_1 keeps all-zero rows |
| CoinMdps.FlipTwoCoinsTailsOneIsStuck | mdps/mdp_flip_coins.py:87-93 | the as-written two-coin MDP breaks the probability invariant, and both algorithms leave V(TAILS_1) at 0 |
| CoinMdps.FlipTwoCoinsFlipRowsSumToOne | mdps/mdp_flip_coins.py:83-90 | the INIT and HEADS_1 rows sum to 1 for both coins |
| CoinMdps.TailsOneStepRaises | environments/env_with_mdp.py:34-75 | an environment on the as-written two-coin MDP loses its state when flipping in TAILS_1, and `isFinished` then raises TypeError |
| CoinMdps.FlipTwoCoinsIntended | mdps/mdp_flip_coins.py:87-90 | the intended slice 1:3 gives TAILS_1 the same rows as HEADS_1 |
| CoinMdps.FlipTwoCoinsIntendedIsNormalized | mdps/mdp_flip_coins.py:81-96 | the intended two-coin tables satisfy the probability invariant |
| EnvWithMdp.SampleFrom | environments/env_with_mdp.py:43-49 | the scan from s returns the first index at or after s whose cumulative mass reaches the draw, and nothing exactly when none does |
| EnvWithMdp.SampleState | environments/env_with_mdp.py:39-49 | returns the first s with p[0] + ... + p[s] >= rand; returns None exactly when no cumulative sum reaches rand |
| EnvWithMdp.SampledStateHasMass | environments/env_with_mdp.py:43-49 | with rand > 0 the sampled state has positive probability |
| EnvWithMdp.ZeroRowSamplesNothing | environments/env_with_mdp.py:47-49 | an all-zero row with rand > 0 samples nothing |
| EnvWithMdp.FullRowAlwaysSamples | environments/env_with_mdp.py:43-49 | a row whose total mass reaches the draw always yields a state |
| EnvWithMdp.Reset | environments/env_with_mdp.py:52-56 | the current state is the first state whose cumulative initial probability reaches the draw, or None when none does; the previous state equals it |
| EnvWithMdp.NewEnv | environments/env_with_mdp.py:9-21 | construction resets: the current state is the first whose cumulative initial probability reaches the draw (None when none does), and the previous state equals it |
| EnvWithMdp.ResolveAction | environments/env_with_mdp.py:62-68 | a name resolves to its position in A (ValueError when absent); an integer indexes the action axis, a negative one counting from the end (IndexError out of range) |
| EnvWithMdp.PerformAction | environments/env_with_mdp.py:59-75 | the old current state becomes the previous one; the new one is the first state whose cumulative probability under P[cur][action] reaches the draw, or None when none does; action errors propagate |
| EnvWithMdp.GetReward | environments/env_with_mdp.py:78-80 | the reward is R[prev][cur] whenever both states exist |
| EnvWithMdp.IsFinished | environments/env_with_mdp.py:34-36 | returns the terminal flag of the current state; raises TypeError exactly when there is none |
| EnvWithMdp.GetObservation | environments/env_with_mdp.py:82-84 | the observation is a state number below numStates, and it is missing exactly when isFinished fails |
| EnvWithMdp.NumActions | environments/env_with_mdp.py:24-26 | every action number 0 .. numActions - 1 is accepted as that action, and numActions itself is not |
| EnvWithMdp.NumStates | environments/env_with_mdp.py:29-31 | the current and previous states are below numStates, and it is the number of states that T, I, P and R describe |
| EnvWithMdp.ObservationInRange | environments/env_with_mdp.py:82-84 | every observation is a state number below numStates |
| EnvWithMdp.RewardAfterReset | environments/env_with_mdp.py:52-80 | right after a reset to s, the reward is R[s][s] |
| EnvWithMdp.StepRewardIsTransitionReward | environments/env_with_mdp.py:59-80 | a step from s to t reports R[s][t], and t had positive transition probability |
| EnvWithMdp.StepFromZeroRowsLosesState | environments/env_with_mdp.py:34-75 | a step from a zero-row state leaves no current state, and `isFinished` then raises |
| EnvWithMdp.NormalizedMdpAlwaysSamples | environments/env_with_mdp.py:39-75 | in a normalised MDP, with a draw in [0, 1), reset and every non-terminal step yield a state |
| EnvMaze.NewMaze | environments/env_maze.py:11-51 | a missing or empty grid is replaced by the default 6 x 5 maze; the agent starts at (0, 0), not bumped |
| EnvMaze.NumActions | environments/env_maze.py:53-55 | there are 4 actions |
| EnvMaze.NumStates | environments/env_maze.py:57-59 | every cell's number row * n_cols + col is below numStates, and every number below it decodes to a cell of the grid, so it counts the cells exactly |
| EnvMaze.IsFinished | environments/env_maze.py:61-63 | the episode is over exactly when the cell the observation numbers is an exit |
| EnvMaze.GetObservation | environments/env_maze.py:138-140 | the observation lies in [0, numStates) and decodes back to (row, col) |
| EnvMaze.Reset | environments/env_maze.py:71-81 | the agent is placed on a '.' or ' ' cell, so the episode is not finished after a reset; the bump flag is kept |
| EnvMaze.PerformAction | environments/env_maze.py:83-120 | fails only when no slip happens and an integer action is out of range (IndexError); otherwise the agent stays in the grid and the grid is unchanged |
| EnvMaze.GetReward | environments/env_maze.py:122-136 | 100 on an exit; otherwise the bump penalty after a bump; otherwise -1, in that priority |
| EnvMaze.ObservationIsInjective | environments/env_maze.py:138-140 | two positions share an observation exactly when they are the same cell |
| EnvMaze.SlipRepeatsReward | environments/env_maze.py:86-89 | a slip keeps the position and the bump flag, so the recorded -1 is never read |
| EnvMaze.ActionName | environments/env_maze.py:94-95 | a name stands for itself; an integer names an action exactly when it is in Python's index range for A, and then names A[i], counting negative indices from the end |
| EnvMaze.NegativeIndexIsDown | environments/env_maze.py:94-95 | the integer -1 acts exactly as the name "DOWN", the last action |
| EnvMaze.MoveOrBump | environments/env_maze.py:91-120 | without a slip, any action naming a move, whether by name or by a positive or negative index, reaches the adjacent cell (in grid, not a wall) and clears the flag, or stays and sets it |
| EnvMaze.UnknownNameStaysPut | environments/env_maze.py:97-120 | a name that is not an action neither moves nor bumps |
| EnvMaze.NeverOnWall | environments/env_maze.py:106-117 | an agent off the walls is never moved onto a wall |
| EnvMaze.RewardAfterStep | environments/env_maze.py:106-136 | after a step, the reward reports an exit first, then a bump, then the step cost |
| Agents.NewAgent | agents/agent.py:5-12 | the constructor records the state and action counts unchanged |
| Agents.GetAction | agents/agent.py:26-31 | the base agent raises NotImplementedError; the first-action agent answers 0, and only it does |
| Agents.GetValues | agents/agent.py:40-48 | agents that compute no values report none, for every agent |
| Agents.GetQValues | agents/agent.py:50-59 | agents that compute no Q-values report none, for every agent |
| Agents.NotificationsChangeNothing | agents/agent_first_action.py:11-33 | any sequence of newEpisode, integrateObservation and giveReward leaves the agent, its action and its (absent) values unchanged |
| MonteCarlo.NewMcAgent | agents/agent_montecarlo_statevalues.py:13-31 | V and Q are zero, every results list and both traces are empty, and alpha = 1 |
| MonteCarlo.IntegrateObservation | agents/agent_montecarlo_statevalues.py:47-54 | appends to the observation trace and changes nothing else |
| MonteCarlo.GiveReward | agents/agent_montecarlo_statevalues.py:64-70 | appends to the reward trace and changes nothing else |
| MonteCarlo.GetAction | agents/agent_montecarlo_statevalues.py:56-62 | an action in [0, num_actions - 1]; ValueError exactly when there are no actions |
| MonteCarlo.GetValues | agents/agent_montecarlo_statevalues.py:72-80 | reports V |
| MonteCarlo.GetQValues | agents/agent_montecarlo_statevalues.py:82-94 | reports no Q-values |
| MonteCarlo.WalkBack | agents/agent_montecarlo_statevalues.py:36-39 | the backward walk succeeds exactly when every observed state indexes the results list (IndexError otherwise), and keeps one list per state |
| MonteCarlo.WalkBackRecordsReturns | agents/agent_montecarlo_statevalues.py:36-39 | the walk appends to each state's list one return per visit, each the sum of the rewards from that step to the end of the trace |
| MonteCarlo.UpdateValues | agents/agent_montecarlo_statevalues.py:41-43 | states with no results keep their value; with alpha = 1 every other value becomes the mean of its results |
| MonteCarlo.NewEpisode | agents/agent_montecarlo_statevalues.py:33-45 | pairs beyond the shorter trace are dropped; each list grows by exactly its recorded returns; Q and the counts are kept; both traces end empty; IndexError exactly for an out-of-range state |
| MonteCarlo.NewAgentValuesAreMeans | agents/agent_montecarlo_statevalues.py:19-31 | a new agent satisfies "every value is the mean of its recorded returns, or 0 if unvisited" |
| MonteCarlo.StepsKeepValuesAreMeans | agents/agent_montecarlo_statevalues.py:47-70 | recording observations and rewards keeps that invariant |
| MonteCarlo.NewEpisodeKeepsValuesAreMeans | agents/agent_montecarlo_statevalues.py:36-43 | learning from an episode keeps that invariant |
| MonteCarlo.ResultsOnlyGrow | agents/agent_montecarlo_statevalues.py:26-45 | what a state had recorded stays a prefix of its list |
| MonteCarlo.EveryVisitExample | agents/agent_montecarlo_statevalues.py:36-43 | visits 0, 1, 0 with rewards 1, 2, 3 record (3, 6) for state 0 and (5) for state 1, giving values 4.5 and 5 |
| Episodic.Steps | experiment_episodic.py:35-47 | the loop from step k collects at most max - k + 1 rewards; it stops early only on a finished environment; a finished environment collects nothing |
| Episodic.DoEpisodes | experiment_episodic.py:24-60 | one reward list per episode (none for a negative count), each of length at most max_actions_per_episode + 1 |
| Episodic.EpisodeEndsFinishedOrCapped | experiment_episodic.py:27-35 | an episode shorter than max + 1 steps ended on a finished environment; one finished right after reset gives an empty list |
| Episodic.LogsOnlyGrow | experiment_episodic.py:35-47 | with an environment and an agent that log their calls, the loop only extends both logs |
| Episodic.StepFollowsProtocol | experiment_episodic.py:38-47 | one step observes the state before the action and integrates it, then the agent chooses, exactly the chosen action is performed, and the reward read after the action is given to the agent and collected first |
| Episodic.StepsHandRewardsToAgent | experiment_episodic.py:38-47 | each step's reward is handed to the agent and appended to the list, in the same order |
| Episodic.LastEpisodeIsNeverLearned | experiment_episodic.py:26-30 | newEpisode runs before each episode and never after the last, so an agent whose newEpisode consumes its trace ends holding the whole last episode unlearned |
| Episodic.NeverFinishingRunsMaxPlusOne | experiment_episodic.py:35-36 | against an environment that never finishes, the loop takes max - k + 1 steps from step k |
| Episodic.ZeroCapStillActs | experiment_episodic.py:35-36 | with max_actions_per_episode = 0 an episode still takes one action |
| Episodic.CappedEpisode | experiment_episodic.py:35-36 | the intended cap: at most max actions, and stopping earlier only on a finished environment |
| Episodic.CappedEpisodeRunsMax | experiment_episodic.py:35-36 | with the intended cap, an environment that never finishes gets exactly max actions |
| Episodic.DoCappedEpisodes | experiment_episodic.py:24-60 | the experiment with the intended cap: one list per episode, each at most max_actions_per_episode long |
| Episodic.FirstActionAgentUnchanged | experiment_episodic.py:38-47 | running the loop with the first-action agent leaves the agent as it was |
| Episodic.MonteCarloRecordsRewards | agents/agent_montecarlo_statevalues.py:47-70 | in the loop, only the learning agent's giveReward touches its reward trace, and it appends |
| Episodic.McNewEpisode | agents/agent_montecarlo_statevalues.py:33-45 | newEpisode leaves both traces empty, and when it does not raise it is the learning step |
| Episodic.MonteCarloLastEpisodeIsNeverLearned | experiment_episodic.py:26-30 | the learning agent ends every experiment holding the rewards of its last episode, which it never learns from |

## Left out

- Rendering and plotting: string renderings of states, values and policies, `plotValues`, the progress prints in both algorithms and in the loop, and `plotLearningCurve`. These are presentation only, except for the opening prints of policy evaluation and the loop's prints on a plain MarkovDecisionProcess (next lines).
- DynamicProgramming.PolicyEvaluation: it opens by printing `mdp.policyString(policy)` and `mdp.valuesString(V)` (dynamic_programming.py:30-31). A plain MarkovDecisionProcess does not override these, so on it the call raises NotImplementedError before any sweep (mdps/markov_decision_process.py:60-66, 77-83). The model evaluates any `Mdp` record and does not represent that error. The coin and grid MDPs override both methods.
- Episodic.DoEpisodes: `verbose` is on by default, and each episode then prints `env.stateString()` after the reset (experiment_episodic.py:8, 32-33). For an environment over a plain MarkovDecisionProcess this calls `self.S(cur_state)` on a list (mdps/markov_decision_process.py:52-58), which raises TypeError before the first step. The model runs the loop for any environment and does not represent that error. The coin and grid MDPs and the maze override `stateString`.
- MonteCarlo.NewMcAgent: the counts are natural numbers. A negative count, for which `np.zeros` raises ValueError (agents/agent_montecarlo_statevalues.py:19, 22), is not modelled.
- Random number generation. Every draw is a parameter:
  - the real draw for `_sample_state` and for the maze slip;
  - a uniform draw in [0, 1) for `random.randint`;
  - in the generic loop, whatever state the environment and agent carry.
- EnvMaze.Reset: the rejection-sampling loop is replaced by its outcome, a precondition on the chosen cell. The loop itself may never terminate (a grid with no free cell).
- IEEE floating point and numpy broadcasting. Values are exact reals, and the 0.01 tolerance is an exact constant. No convergence or contraction results are stated for the two algorithms: only the structure of the sweep and stop rule.
- DynamicProgramming.ValueIteration: a policy passed in is modelled as a value, not as an array updated in place. The result is the overwritten policy, and its old contents do not matter (`ExtractionOverwritesPolicy`).
- DynamicProgramming.ValueIteration: it requires at least one action when there are states, because `np.max` and `np.argmax` fail on an empty axis; that failure is not modelled. Without a policy it also requires an action when there are no states: the ZeroDivisionError of `1.0 / n_actions` in that case is not modelled either.
- MonteCarlo.NewEpisode: in Python 3, `reversed(zip(...))` raises TypeError. The model walks the list of pairs backwards, as intended, and requires one value and one results list per state.
- MonteCarlo.WalkBack: when an observation is not a state number, the source has already appended the returns of the later steps before it raises IndexError. The model returns the error and drops those partial appends.
- Episodic.McNewEpisode: when learning raises, the source's experiment aborts. The loop has no abort, so in that case the wrapper only empties the traces.
- EnvWithMdp.PerformAction: stepping from the None state that a failed draw leaves behind is not modelled. The episode loop raises in `isFinished` before it gets there (`StepFromZeroRowsLosesState`).
- EnvWithMdp.GetReward: with a None state numpy returns an array instead of a number; the model returns None.
- EnvMaze.PerformAction and the other maze operations require a rectangular grid with the agent inside it. A jagged grid's IndexError is not modelled.
- GridMdp.Grid: the grid sizes are natural numbers; negative sizes are not modelled.
- Episodic.DoEpisodes: the environment and agent operations are total functions here. An exception raised inside the loop (for example by `isFinished` on a lost state) is not propagated.
- The `__main__` blocks, the name-to-environment factory, the agent-comparison script, the abstract environment interface (method signatures only) and the smoke-test script. None of them has behaviour to verify.

## Findings

| source | as written | input that shows it | evidently intended | confidence | as-written member | corrected member |
|---|---|---|---|---|---|---|
| dynamic_programming.py:93 | every cell of `policy[i]` receives the argmax index | the one-coin MDP: the INIT row becomes (1, 1), which sums to 2 and evaluates to 110 instead of 60 | a one-hot row on the argmax action | not executed; follows from the proved model | CoinMdps.IndexFilledPolicyIsNotADistribution | DynamicProgramming.GreedyValueIteration |
| experiment_episodic.py:35 | the loop runs while `stepid <= max_actions_per_episode` | an environment that never finishes with max_actions_per_episode = 0: one action is taken | at most max_actions_per_episode actions (`stepid < max`) | not executed; follows from the proved model | Episodic.ZeroCapStillActs | Episodic.CappedEpisodeRunsMax |
| mdps/mdp_flip_coins.py:87-90 | the second flip is assigned to the row slice `1:2` | TAILS_1 (state 2) keeps all-zero rows though it is not terminal; stepping from it loses the state | the slice `1:3`, covering HEADS_1 and TAILS_1 | not executed; follows from the proved model | CoinMdps.FlipTwoCoinsTailsOneIsStuck | CoinMdps.FlipTwoCoinsIntendedIsNormalized |
