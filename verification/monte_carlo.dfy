/** The every-visit Monte-Carlo agent (`AgentMonteCarloV`). During an
    episode it records the observations and rewards it is given; when the
    next episode starts it walks the trace backwards, appends the return
    from each step to that step's state, and moves each state's value
    towards the mean of everything recorded for it. The uniform draw behind
    `random.randint` is an explicit parameter. */
module MonteCarlo {
  import opened Wrappers
  import opened Numeric

  datatype McAgent = McAgent(
    numStates: nat,
    numActions: nat,
    V: seq<real>,
    Q: seq<seq<real>>,
    results: seq<seq<real>>,
    observations: seq<int>,
    rewards: seq<real>,
    alpha: real)

  /** One value and one results list per state. */
  predicate Shaped(a: McAgent)
  {
    |a.V| == a.numStates && |a.results| == a.numStates
  }

  /** The constructor: zero values and Q-values, an empty results list per
      state, empty traces, and step size 1. */
  function NewMcAgent(numStates: nat, numActions: nat): (a: McAgent)
    ensures Shaped(a) && a.numStates == numStates && a.numActions == numActions
    ensures a.V == Zeros(numStates)
    ensures |a.Q| == numStates && forall s :: 0 <= s < numStates ==> a.Q[s] == Zeros(numActions)
    ensures forall s :: 0 <= s < numStates ==> a.results[s] == []
    ensures a.observations == [] && a.rewards == [] && a.alpha == 1.0
  {
    McAgent(numStates, numActions, Zeros(numStates), seq(numStates, _ => Zeros(numActions)),
            seq(numStates, _ => []), [], [], 1.0)
  }

  /** `integrateObservation`: append to the observation trace. */
  function IntegrateObservation(a: McAgent, obs: int): (r: McAgent)
    ensures r.observations == a.observations + [obs]
    ensures r.(observations := a.observations) == a
  {
    a.(observations := a.observations + [obs])
  }

  /** `giveReward`: append to the reward trace. */
  function GiveReward(a: McAgent, reward: real): (r: McAgent)
    ensures r.rewards == a.rewards + [reward]
    ensures r.(rewards := a.rewards) == a
  {
    a.(rewards := a.rewards + [reward])
  }

  /** `getAction`: `random.randint(0, num_actions - 1)` with the draw u; an
      agent without actions makes randint raise ValueError. */
  function GetAction(a: McAgent, u: Unit): (r: Result<int>)
    ensures r.Ok? <==> a.numActions >= 1
    ensures r.Err? ==> r.error == ValueError
    ensures r.Ok? ==> 0 <= r.value < a.numActions
  {
    if a.numActions >= 1 then Ok(RandInt(0, a.numActions - 1, u)) else Err(ValueError)
  }

  /** `getValues`: the value table. */
  function GetValues(a: McAgent): (r: Option<seq<real>>)
    ensures r == Some(a.V)
  {
    Some(a.V)
  }

  /** `getQValues`: Q-values are kept but never learned, so none are
      reported. */
  function GetQValues(a: McAgent): (r: Option<seq<seq<real>>>)
    ensures r.None?
  {
    None
  }

  // ---------------------------------------------------------------------
  // The backward walk
  // ---------------------------------------------------------------------

  /** The pairs (observations[k], rewards[k]) for k < k0 processed from
      k0 - 1 down to 0, with `acc` the return accumulated so far; each step
      adds its reward to the return and appends it to its state's list.
      A state number out of range raises IndexError. */
  function WalkBack(results: seq<seq<real>>, obs: seq<int>, rews: seq<real>, k0: nat, acc: real)
    : (r: Result<seq<seq<real>>>)
    requires k0 <= |obs| && k0 <= |rews|
    ensures r.Ok? <==> forall j :: 0 <= j < k0 ==> PyIndex(|results|, obs[j]).Some?
    ensures r.Err? ==> r.error == IndexError
    ensures r.Ok? ==> |r.value| == |results|
    decreases k0
  {
    if k0 == 0 then Ok(results)
    else
      var ret := acc + rews[k0 - 1];
      match PyIndex(|results|, obs[k0 - 1])
      case None => Err(IndexError)
      case Some(o) => WalkBack(results[o := results[o] + [ret]], obs, rews, k0 - 1, ret)
  }

  /** The reference meaning of the walk: the returns recorded for state i
      from the steps k0 - 1 down to 0 of an n-step trace, one per visit
      (every visit, not only the first), each the sum of the rewards from
      that step to the end of the trace. */
  function Recorded(obs: seq<int>, rews: seq<real>, n: nat, k0: nat, nStates: nat, i: nat): seq<real>
    requires k0 <= n <= |obs| && n <= |rews|
    decreases k0
  {
    if k0 == 0 then []
    else
      (if PyIndex(nStates, obs[k0 - 1]) == Some(i) then [Sum(rews[k0 - 1..n])] else [])
      + Recorded(obs, rews, n, k0 - 1, nStates, i)
  }

  lemma SuffixSumStep(rews: seq<real>, k: nat, n: nat)
    requires k < n <= |rews|
    ensures Sum(rews[k..n]) == rews[k] + Sum(rews[k + 1..n])
  {
    SumFirst(rews[k..n]);
    assert rews[k..n][1..] == rews[k + 1..n];
  }

  /** The running return of the walk is the suffix sum, so the walk appends
      to each list exactly the returns the reference definition records. */
  lemma {:induction false} WalkBackRecordsReturns(results: seq<seq<real>>, obs: seq<int>, rews: seq<real>, n: nat, k0: nat, acc: real)
    requires k0 <= n <= |obs| && n <= |rews|
    requires acc == Sum(rews[k0..n])
    requires WalkBack(results, obs, rews, k0, acc).Ok?
    ensures forall i :: 0 <= i < |results| ==>
              WalkBack(results, obs, rews, k0, acc).value[i] == results[i] + Recorded(obs, rews, n, k0, |results|, i)
    decreases k0
  {
    if k0 == 0 {
    } else {
      var ret := acc + rews[k0 - 1];
      SuffixSumStep(rews, k0 - 1, n);
      var o := PyIndex(|results|, obs[k0 - 1]).value;
      var next := results[o := results[o] + [ret]];
      WalkBackRecordsReturns(next, obs, rews, n, k0 - 1, ret);
      forall i | 0 <= i < |results|
        ensures WalkBack(results, obs, rews, k0, acc).value[i] == results[i] + Recorded(obs, rews, n, k0, |results|, i)
      {
        var here := if PyIndex(|results|, obs[k0 - 1]) == Some(i) then [ret] else [];
        assert next[i] == results[i] + here;
        assert results[i] + here + Recorded(obs, rews, n, k0 - 1, |results|, i)
            == results[i] + (here + Recorded(obs, rews, n, k0 - 1, |results|, i));
      }
    }
  }

  // ---------------------------------------------------------------------
  // New episode
  // ---------------------------------------------------------------------

  /** Length of `zip(observations, rewards)`: the pairs beyond the shorter
      trace are dropped. */
  function TraceLength(a: McAgent): nat
  {
    if |a.observations| <= |a.rewards| then |a.observations| else |a.rewards|
  }

  /** `V[i] += alpha * (mean(results[i]) - V[i])` for every state with a
      non-empty list; the other values are kept. */
  function UpdateValues(V: seq<real>, results: seq<seq<real>>, alpha: real): (W: seq<real>)
    requires |V| == |results|
    ensures |W| == |V|
    ensures forall i :: 0 <= i < |V| && results[i] == [] ==> W[i] == V[i]
    ensures alpha == 1.0 ==> forall i :: 0 <= i < |V| && results[i] != [] ==> W[i] == Mean(results[i])
  {
    seq(|V|, i requires 0 <= i < |V| =>
      if results[i] != [] then V[i] + alpha * (Mean(results[i]) - V[i]) else V[i])
  }

  /** `newEpisode`: learn from the trace of the episode that just ended,
      then empty both traces. */
  function NewEpisode(a: McAgent): (r: Result<McAgent>)
    requires Shaped(a)
    ensures r.Ok? <==> forall j :: 0 <= j < TraceLength(a) ==> PyIndex(a.numStates, a.observations[j]).Some?
    ensures r.Err? ==> r.error == IndexError
    ensures r.Ok? ==> var b := r.value;
              && Shaped(b) && b.observations == [] && b.rewards == []
              && b.numStates == a.numStates && b.numActions == a.numActions
              && b.Q == a.Q && b.alpha == a.alpha
              && forall i :: 0 <= i < a.numStates ==>
                   b.results[i] == a.results[i] + Recorded(a.observations, a.rewards, TraceLength(a), TraceLength(a), a.numStates, i)
  {
    var n := TraceLength(a);
    assert a.rewards[n..n] == [];
    match WalkBack(a.results, a.observations, a.rewards, n, 0.0)
    case Err(e) => Err(e)
    case Ok(results) =>
      WalkBackRecordsReturns(a.results, a.observations, a.rewards, n, n, 0.0);
      Ok(a.(V := UpdateValues(a.V, results, a.alpha), results := results, observations := [], rewards := []))
  }

  // ---------------------------------------------------------------------
  // The value invariant
  // ---------------------------------------------------------------------

  /** With step size 1 every value is the mean of all returns ever recorded
      for its state, and 0 for a state never visited. */
  predicate ValuesAreMeans(a: McAgent)
  {
    && Shaped(a) && a.alpha == 1.0
    && forall i :: 0 <= i < a.numStates ==>
         a.V[i] == if a.results[i] == [] then 0.0 else Mean(a.results[i])
  }

  lemma NewAgentValuesAreMeans(numStates: nat, numActions: nat)
    ensures ValuesAreMeans(NewMcAgent(numStates, numActions))
  {
  }

  /** Recording observations and rewards keeps the invariant, and so does
      learning from them. */
  lemma StepsKeepValuesAreMeans(a: McAgent, obs: int, reward: real)
    requires ValuesAreMeans(a)
    ensures ValuesAreMeans(IntegrateObservation(a, obs))
    ensures ValuesAreMeans(GiveReward(a, reward))
  {
  }

  lemma NewEpisodeKeepsValuesAreMeans(a: McAgent)
    requires ValuesAreMeans(a) && NewEpisode(a).Ok?
    ensures ValuesAreMeans(NewEpisode(a).value)
  {
    var b := NewEpisode(a).value;
    forall i | 0 <= i < a.numStates
      ensures b.V[i] == if b.results[i] == [] then 0.0 else Mean(b.results[i])
    {
      if b.results[i] == [] {
        assert |a.results[i]| <= |b.results[i]|;
      }
    }
  }

  /** Results lists only grow: what a state had recorded stays a prefix of
      its list. */
  lemma ResultsOnlyGrow(a: McAgent)
    requires Shaped(a) && NewEpisode(a).Ok?
    ensures forall i :: 0 <= i < a.numStates ==>
              a.results[i] <= NewEpisode(a).value.results[i]
  {
  }

  /** An example of every-visit recording: state 0 visited at steps 0 and 2
      and state 1 at step 1, with rewards 1, 2, 3. Walking back, state 0
      receives the returns 3 and 6, state 1 the return 5, and the values
      become their means. */
  lemma EveryVisitExample()
    ensures var a := NewMcAgent(2, 1).(observations := [0, 1, 0], rewards := [1.0, 2.0, 3.0]);
            var b := NewEpisode(a).value;
            && b.results == [[3.0, 6.0], [5.0]]
            && b.V == [4.5, 5.0]
  {
    var a := NewMcAgent(2, 1).(observations := [0, 1, 0], rewards := [1.0, 2.0, 3.0]);
    var rews := a.rewards;
    assert rews[2..3] == [3.0];
    assert rews[1..3] == [2.0, 3.0];
    assert rews[0..3] == [1.0, 2.0, 3.0];
    SuffixSumStep(rews, 1, 3);
    SuffixSumStep(rews, 0, 3);
    assert Sum(rews[2..3]) == 3.0;
    assert Recorded(a.observations, rews, 3, 3, 2, 0) == [3.0, 6.0];
    assert Recorded(a.observations, rews, 3, 3, 2, 1) == [5.0];
    var b := NewEpisode(a).value;
    assert b.results[0] == [3.0, 6.0];
    assert b.results[1] == [5.0];
    assert Sum([3.0, 6.0]) == 9.0;
  }
}
