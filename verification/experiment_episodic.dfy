/** The episodic experiment loop (`doEpisodes`), generic over any
    environment and any agent. Both are given as records of their protocol
    operations over an opaque state type; whatever randomness they use lives
    in that state. Each episode tells the agent a new episode starts, resets
    the environment, and then repeats observe -> integrate -> choose ->
    act -> reward -> give reward while the environment is not finished and
    the step counter has not passed the cap. */
module Episodic {
  import Agents
  import MonteCarlo

  /** The environment protocol: `reset`, `isFinished`, `getObservation`,
      `performAction`, `getReward`. */
  datatype EnvOps<!E> = EnvOps(
    reset: E -> E,
    isFinished: E -> bool,
    observe: E -> int,
    perform: (E, int) -> E,
    reward: E -> real)

  /** The agent protocol: `newEpisode`, `integrateObservation`, `getAction`
      (which may advance the agent's random state) and `giveReward`. */
  datatype AgentOps<!G> = AgentOps(
    newEpisode: G -> G,
    integrate: (G, int) -> G,
    act: G -> (G, int),
    giveReward: (G, real) -> G)

  /** Environment state, agent state, and the rewards collected. */
  datatype Run<E, G> = Run(env: E, agent: G, rewards: seq<real>)

  /** The inner `while` loop from step counter `stepid` on: it continues
      while the environment is not finished and `stepid <= lastStep`. */
  function Steps<E, G>(env: EnvOps<E>, agent: AgentOps<G>, e: E, g: G, stepid: nat, lastStep: int)
    : (r: Run<E, G>)
    ensures |r.rewards| <= if lastStep < stepid then 0 else lastStep - stepid + 1
    ensures |r.rewards| < lastStep - stepid + 1 ==> env.isFinished(r.env)
    ensures env.isFinished(e) ==> r == Run(e, g, [])
    decreases if lastStep < stepid then 0 else lastStep - stepid + 1
  {
    if env.isFinished(e) || stepid > lastStep then Run(e, g, [])
    else
      var obs := env.observe(e);
      var g1 := agent.integrate(g, obs);
      var (g2, action) := agent.act(g1);
      var e1 := env.perform(e, action);
      var reward := env.reward(e1);
      var g3 := agent.giveReward(g2, reward);
      var rest := Steps(env, agent, e1, g3, stepid + 1, lastStep);
      Run(rest.env, rest.agent, [reward] + rest.rewards)
  }

  /** One episode: `agent.newEpisode()`, `env.reset()`, then the loop from
      step 0 with the cap as written (`stepid <= max_actions_per_episode`). */
  function Episode<E, G>(env: EnvOps<E>, agent: AgentOps<G>, e: E, g: G, maxActions: int): Run<E, G>
  {
    Steps(env, agent, env.reset(e), agent.newEpisode(g), 0, maxActions)
  }

  datatype Experiment<E, G> = Experiment(env: E, agent: G, allRewards: seq<seq<real>>)

  /** `doEpisodes`: `n_episodes` episodes (none for a negative count), the
      environment and agent states carried from one episode to the next;
      one reward list per episode. */
  function DoEpisodes<E, G>(env: EnvOps<E>, agent: AgentOps<G>, e: E, g: G, nEpisodes: int, maxActions: int)
    : (r: Experiment<E, G>)
    ensures |r.allRewards| == if nEpisodes < 0 then 0 else nEpisodes
    ensures forall k :: 0 <= k < |r.allRewards| ==>
              |r.allRewards[k]| <= if maxActions < 0 then 0 else maxActions + 1
    decreases if nEpisodes < 0 then 0 else nEpisodes
  {
    if nEpisodes <= 0 then Experiment(e, g, [])
    else
      var first := Episode(env, agent, e, g, maxActions);
      var rest := DoEpisodes(env, agent, first.env, first.agent, nEpisodes - 1, maxActions);
      Experiment(rest.env, rest.agent, [first.rewards] + rest.allRewards)
  }

  // ---------------------------------------------------------------------
  // Properties of the loop
  // ---------------------------------------------------------------------

  /** An episode that stops before max + 1 steps stopped because the
      environment was finished; an environment finished right after the reset
      gives an empty list. */
  lemma EpisodeEndsFinishedOrCapped<E, G>(env: EnvOps<E>, agent: AgentOps<G>, e: E, g: G, maxActions: int)
    ensures var r := Episode(env, agent, e, g, maxActions);
            && (|r.rewards| < maxActions + 1 ==> env.isFinished(r.env))
            && (env.isFinished(env.reset(e)) ==> r.rewards == [])
  {
  }

  /** A view of the agent state that `giveReward` extends by the reward and
      that observing and choosing leave alone (a reward trace). */
  ghost predicate RecordsRewards<G(!new)>(agent: AgentOps<G>, trace: G -> seq<real>)
  {
    && (forall g, x :: trace(agent.giveReward(g, x)) == trace(g) + [x])
    && (forall g, o :: trace(agent.integrate(g, o)) == trace(g))
    && (forall g :: trace(agent.act(g).0) == trace(g))
  }

  /** The rewards the loop collects are exactly the rewards handed to the
      agent, in the same order. */
  lemma {:induction false} StepsHandRewardsToAgent<E, G(!new)>(env: EnvOps<E>, agent: AgentOps<G>, trace: G -> seq<real>,
                                                        e: E, g: G, stepid: nat, lastStep: int)
    requires RecordsRewards(agent, trace)
    ensures var r := Steps(env, agent, e, g, stepid, lastStep);
            trace(r.agent) == trace(g) + r.rewards
    decreases if lastStep < stepid then 0 else lastStep - stepid + 1
  {
    if !(env.isFinished(e) || stepid > lastStep) {
      var obs := env.observe(e);
      var g1 := agent.integrate(g, obs);
      var (g2, action) := agent.act(g1);
      var e1 := env.perform(e, action);
      var reward := env.reward(e1);
      var g3 := agent.giveReward(g2, reward);
      StepsHandRewardsToAgent(env, agent, trace, e1, g3, stepid + 1, lastStep);
      assert trace(g3) == trace(g) + [reward];
    } else {
      assert trace(g) + [] == trace(g);
    }
  }

  // ---------------------------------------------------------------------
  // Inside one step
  // ---------------------------------------------------------------------

  /** What a logging agent records of the calls it receives. */
  datatype AgentEvent = Integrated(obs: int) | Chose(action: int) | Given(reward: real)

  /** An environment that never finishes and logs the actions performed on
      it. Its observation is the number of actions performed so far and its
      reward the number performed including the last, so each read shows
      whether it happened before or after the action. */
  function LoggingEnv(): EnvOps<seq<int>>
  {
    EnvOps(e => e, e => false, e => |e|, (e, a) => e + [a], e => |e| as real)
  }

  /** An agent that logs every notification and chooses as its action the
      length of its log, so the choice shows which calls came before it. */
  function LoggingAgent(): AgentOps<seq<AgentEvent>>
  {
    AgentOps(g => g, (g, o) => g + [Integrated(o)], g => (g + [Chose(|g|)], |g|), (g, x) => g + [Given(x)])
  }

  /** One step of the loop between the logging instances, unfolded. */
  lemma LoggedStep(e: seq<int>, g: seq<AgentEvent>, stepid: nat, lastStep: int)
    requires stepid <= lastStep
    ensures var e1 := e + [|g| + 1];
            var g3 := g + [Integrated(|e|), Chose(|g| + 1), Given((|e| + 1) as real)];
            var rest := Steps(LoggingEnv(), LoggingAgent(), e1, g3, stepid + 1, lastStep);
            Steps(LoggingEnv(), LoggingAgent(), e, g, stepid, lastStep)
              == Run(rest.env, rest.agent, [(|e| + 1) as real] + rest.rewards)
  {
    var env, agent := LoggingEnv(), LoggingAgent();
    var g1 := agent.integrate(g, env.observe(e));
    assert g1 == g + [Integrated(|e|)];
    var (g2, action) := agent.act(g1);
    assert action == |g| + 1 && g2 == g1 + [Chose(|g| + 1)];
    var e1 := env.perform(e, action);
    assert e1 == e + [|g| + 1];
    var reward := env.reward(e1);
    assert reward == (|e| + 1) as real;
    var g3 := agent.giveReward(g2, reward);
    assert g3 == g + [Integrated(|e|), Chose(|g| + 1), Given((|e| + 1) as real)];
  }

  /** The loop only ever extends both logs. */
  lemma {:induction false} LogsOnlyGrow(e: seq<int>, g: seq<AgentEvent>, stepid: nat, lastStep: int)
    ensures var r := Steps(LoggingEnv(), LoggingAgent(), e, g, stepid, lastStep);
            && |e| <= |r.env| && r.env[..|e|] == e
            && |g| <= |r.agent| && r.agent[..|g|] == g
    decreases if lastStep < stepid then 0 else lastStep - stepid + 1
  {
    if stepid <= lastStep {
      var e1 := e + [|g| + 1];
      var g3 := g + [Integrated(|e|), Chose(|g| + 1), Given((|e| + 1) as real)];
      LoggedStep(e, g, stepid, lastStep);
      LogsOnlyGrow(e1, g3, stepid + 1, lastStep);
      var r := Steps(LoggingEnv(), LoggingAgent(), e1, g3, stepid + 1, lastStep);
      assert r.env[..|e|] == r.env[..|e1|][..|e|];
      assert r.agent[..|g|] == r.agent[..|g3|][..|g|];
    }
  }

  /** One step follows the protocol in order: the environment is observed
      before the action and the observation is integrated; the agent then
      chooses; exactly the chosen action is performed; the reward is read
      after the action, handed to the agent, and is the first reward the
      loop collects. */
  lemma StepFollowsProtocol(e: seq<int>, g: seq<AgentEvent>, stepid: nat, lastStep: int)
    requires stepid <= lastStep
    ensures var r := Steps(LoggingEnv(), LoggingAgent(), e, g, stepid, lastStep);
            var a := |g| + 1;
            var x := (|e| + 1) as real;
            && |r.rewards| > 0 && r.rewards[0] == x
            && |r.env| >= |e| + 1 && r.env[..|e| + 1] == e + [a]
            && |r.agent| >= |g| + 3 && r.agent[..|g| + 3] == g + [Integrated(|e|), Chose(a), Given(x)]
  {
    var e1 := e + [|g| + 1];
    var g3 := g + [Integrated(|e|), Chose(|g| + 1), Given((|e| + 1) as real)];
    LoggedStep(e, g, stepid, lastStep);
    LogsOnlyGrow(e1, g3, stepid + 1, lastStep);
  }

  /** When `newEpisode` clears the trace (as the learning agent's does), the
      agent ends the experiment holding the whole last episode, unlearned:
      `newEpisode` runs before each episode and never after the last. */
  lemma {:induction false} LastEpisodeIsNeverLearned<E, G(!new)>(env: EnvOps<E>, agent: AgentOps<G>, trace: G -> seq<real>,
                                                          e: E, g: G, nEpisodes: int, maxActions: int)
    requires RecordsRewards(agent, trace)
    requires forall h :: trace(agent.newEpisode(h)) == []
    requires nEpisodes >= 1
    ensures var r := DoEpisodes(env, agent, e, g, nEpisodes, maxActions);
            trace(r.agent) == r.allRewards[|r.allRewards| - 1]
    decreases nEpisodes
  {
    var first := Episode(env, agent, e, g, maxActions);
    StepsHandRewardsToAgent(env, agent, trace, env.reset(e), agent.newEpisode(g), 0, maxActions);
    if nEpisodes > 1 {
      LastEpisodeIsNeverLearned(env, agent, trace, first.env, first.agent, nEpisodes - 1, maxActions);
    }
  }

  // ---------------------------------------------------------------------
  // The step cap
  // ---------------------------------------------------------------------

  /** Against an environment that never finishes, every episode runs
      max + 1 steps: one more than `max_actions_per_episode`. */
  lemma {:induction false} NeverFinishingRunsMaxPlusOne<E, G>(env: EnvOps<E>, agent: AgentOps<G>, e: E, g: G, stepid: nat, lastStep: int)
    requires forall x :: !env.isFinished(x)
    requires stepid <= lastStep + 1
    ensures |Steps(env, agent, e, g, stepid, lastStep).rewards| == lastStep - stepid + 1
    decreases lastStep - stepid + 1
  {
    if stepid <= lastStep {
      var obs := env.observe(e);
      var g1 := agent.integrate(g, obs);
      var (g2, action) := agent.act(g1);
      var e1 := env.perform(e, action);
      var g3 := agent.giveReward(g2, env.reward(e1));
      NeverFinishingRunsMaxPlusOne(env, agent, e1, g3, stepid + 1, lastStep);
    }
  }

  /** The smallest instance: with `max_actions_per_episode = 0` an episode
      still takes one action. */
  lemma ZeroCapStillActs<E, G>(env: EnvOps<E>, agent: AgentOps<G>, e: E, g: G)
    requires forall x :: !env.isFinished(x)
    ensures |Episode(env, agent, e, g, 0).rewards| == 1
  {
    NeverFinishingRunsMaxPlusOne(env, agent, env.reset(e), agent.newEpisode(g), 0, 0);
  }

  /** An episode with the evidently intended cap `stepid < max`: the loop
      stops at the last step number max - 1. */
  function CappedEpisode<E, G>(env: EnvOps<E>, agent: AgentOps<G>, e: E, g: G, maxActions: int): (r: Run<E, G>)
    ensures |r.rewards| <= if maxActions < 0 then 0 else maxActions
    ensures |r.rewards| < maxActions ==> env.isFinished(r.env)
  {
    Steps(env, agent, env.reset(e), agent.newEpisode(g), 0, maxActions - 1)
  }

  /** With the intended cap, an environment that never finishes gets exactly
      `max_actions_per_episode` actions. */
  lemma CappedEpisodeRunsMax<E, G>(env: EnvOps<E>, agent: AgentOps<G>, e: E, g: G, maxActions: nat)
    requires forall x :: !env.isFinished(x)
    ensures |CappedEpisode(env, agent, e, g, maxActions).rewards| == maxActions
  {
    NeverFinishingRunsMaxPlusOne(env, agent, env.reset(e), agent.newEpisode(g), 0, maxActions - 1);
  }

  /** `doEpisodes` with the intended cap. */
  function DoCappedEpisodes<E, G>(env: EnvOps<E>, agent: AgentOps<G>, e: E, g: G, nEpisodes: int, maxActions: int)
    : (r: Experiment<E, G>)
    ensures |r.allRewards| == if nEpisodes < 0 then 0 else nEpisodes
    ensures forall k :: 0 <= k < |r.allRewards| ==>
              |r.allRewards[k]| <= if maxActions < 0 then 0 else maxActions
    decreases if nEpisodes < 0 then 0 else nEpisodes
  {
    if nEpisodes <= 0 then Experiment(e, g, [])
    else
      var first := CappedEpisode(env, agent, e, g, maxActions);
      var rest := DoCappedEpisodes(env, agent, first.env, first.agent, nEpisodes - 1, maxActions);
      Experiment(rest.env, rest.agent, [first.rewards] + rest.allRewards)
  }

  // ---------------------------------------------------------------------
  // The agents in the loop
  // ---------------------------------------------------------------------

  /** The first-action agent as loop operations: it ignores every
      notification and always acts 0. */
  function FirstActionOps(): AgentOps<Agents.SimpleAgent>
  {
    AgentOps(
      a => a,
      (a, _) => a,
      a => (a, 0),
      (a, _) => a)
  }

  /** Any experiment leaves the first-action agent as it was, whatever the
      environment does. */
  lemma {:induction false} FirstActionAgentUnchanged<E>(env: EnvOps<E>, e: E, a: Agents.SimpleAgent, stepid: nat, lastStep: int)
    ensures Steps(env, FirstActionOps(), e, a, stepid, lastStep).agent == a
    decreases if lastStep < stepid then 0 else lastStep - stepid + 1
  {
    if !(env.isFinished(e) || stepid > lastStep) {
      var e1 := env.perform(e, 0);
      FirstActionAgentUnchanged(env, e1, a, stepid + 1, lastStep);
    }
  }

  /** The learning agent's `newEpisode` as a loop operation: it learns from
      the trace and empties it. When learning raises (an observation that is
      not a state number) the source's experiment aborts; the loop has no
      abort, so the traces are then only emptied. */
  function McNewEpisode(a: MonteCarlo.McAgent): (r: MonteCarlo.McAgent)
    ensures r.observations == [] && r.rewards == []
    ensures MonteCarlo.Shaped(a) && MonteCarlo.NewEpisode(a).Ok? ==> r == MonteCarlo.NewEpisode(a).value
  {
    if MonteCarlo.Shaped(a) && MonteCarlo.NewEpisode(a).Ok? then MonteCarlo.NewEpisode(a).value
    else a.(observations := [], rewards := [])
  }

  /** The learning agent as loop operations; `act` is its action choice,
      which leaves the agent as it is. */
  function MonteCarloOps(act: MonteCarlo.McAgent -> (MonteCarlo.McAgent, int)): AgentOps<MonteCarlo.McAgent>
  {
    AgentOps(McNewEpisode, (a, o) => MonteCarlo.IntegrateObservation(a, o), act,
             (a, x) => MonteCarlo.GiveReward(a, x))
  }

  /** The learning agent's notifications satisfy the reward-trace premise:
      only `giveReward` touches the reward trace, and it appends. */
  lemma MonteCarloRecordsRewards(act: MonteCarlo.McAgent -> (MonteCarlo.McAgent, int))
    requires forall a :: act(a).0 == a
    ensures RecordsRewards(MonteCarloOps(act), (a: MonteCarlo.McAgent) => a.rewards)
  {
  }

  /** The learning agent ends every experiment holding the rewards of its
      last episode, which it never learns from. */
  lemma MonteCarloLastEpisodeIsNeverLearned<E>(env: EnvOps<E>, act: MonteCarlo.McAgent -> (MonteCarlo.McAgent, int),
                                               e: E, a: MonteCarlo.McAgent, nEpisodes: int, maxActions: int)
    requires forall x :: act(x).0 == x
    requires nEpisodes >= 1
    ensures var r := DoEpisodes(env, MonteCarloOps(act), e, a, nEpisodes, maxActions);
            r.agent.rewards == r.allRewards[|r.allRewards| - 1]
  {
    var trace := (x: MonteCarlo.McAgent) => x.rewards;
    MonteCarloRecordsRewards(act);
    LastEpisodeIsNeverLearned(env, MonteCarloOps(act), trace, e, a, nEpisodes, maxActions);
  }
}
