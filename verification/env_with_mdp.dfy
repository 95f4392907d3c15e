/** An environment that wraps an MDP (`EnvWithMDP`) so that model-free
    agents only see state numbers and rewards. Successor states are drawn by
    inverse-CDF sampling; the uniform draw `random.random()` is an explicit
    parameter `rand`. A failed draw leaves the state as None, and reading
    that state later raises, as in the source. */
module EnvWithMdp {
  import opened Wrappers
  import opened Numeric
  import opened MarkovDecisionProcess

  // ---------------------------------------------------------------------
  // Inverse-CDF sampling
  // ---------------------------------------------------------------------

  /** The cumulative mass p[0] + ... + p[s] (`np.cumsum(p)[s]`). */
  function Cumul(p: seq<real>, s: nat): real
    requires s < |p|
  {
    Sum(p[..s + 1])
  }

  /** The sampling scan from index s on, with `acc` the mass before s. */
  function SampleFrom(p: seq<real>, rand: real, s: nat, acc: real): (r: Option<nat>)
    requires s <= |p| && acc == Sum(p[..s])
    ensures r.Some? ==> s <= r.value < |p| && Cumul(p, r.value) >= rand
                        && forall j :: s <= j < r.value ==> Cumul(p, j) < rand
    ensures r.None? <==> forall j :: s <= j < |p| ==> Cumul(p, j) < rand
    decreases |p| - s
  {
    if s == |p| then None
    else
      SumPrefixStep(p, s);
      if acc + p[s] >= rand then Some(s) else SampleFrom(p, rand, s + 1, acc + p[s])
  }

  /** `_sample_state`: the first state whose cumulative mass reaches `rand`,
      or None (the loop falls off the end) when none does. */
  function SampleState(p: seq<real>, rand: real): (r: Option<nat>)
    ensures r.Some? ==> r.value < |p| && Cumul(p, r.value) >= rand
                        && forall j :: 0 <= j < r.value ==> Cumul(p, j) < rand
    ensures r.None? <==> forall j :: 0 <= j < |p| ==> Cumul(p, j) < rand
  {
    assert p[..0] == [];
    SampleFrom(p, rand, 0, 0.0)
  }

  /** With a positive draw, the sampled state carries positive mass: a state
      of probability 0 is never entered. */
  lemma SampledStateHasMass(p: seq<real>, rand: real)
    requires rand > 0.0
    ensures SampleState(p, rand).Some? ==> p[SampleState(p, rand).value] > 0.0
  {
    var r := SampleState(p, rand);
    if r.Some? {
      var s := r.value;
      SumPrefixStep(p, s);
      if s > 0 {
        assert Cumul(p, s - 1) < rand;
        assert p[..s - 1 + 1] == p[..s];
      } else {
        assert p[..0] == [];
      }
    }
  }

  /** An all-zero row (a terminal state's transitions) yields no state for
      a positive draw. */
  lemma ZeroRowSamplesNothing(p: seq<real>, rand: real)
    requires rand > 0.0
    requires forall j :: 0 <= j < |p| ==> p[j] == 0.0
    ensures SampleState(p, rand) == None
  {
    forall j | 0 <= j < |p|
      ensures Cumul(p, j) < rand
    {
      SumAllZero(p[..j + 1]);
    }
  }

  /** A row whose total mass reaches the draw always yields a state; in
      particular a distribution (mass 1) with a draw in [0, 1). */
  lemma FullRowAlwaysSamples(p: seq<real>, rand: real)
    requires |p| > 0 && Sum(p) >= rand
    ensures SampleState(p, rand).Some?
  {
    assert p[..|p| - 1 + 1] == p;
    assert Cumul(p, |p| - 1) >= rand;
  }

  // ---------------------------------------------------------------------
  // The environment
  // ---------------------------------------------------------------------

  /** The MDP plus the previous and current state numbers; None is what a
      failed draw leaves behind. */
  datatype MdpEnv<St> = MdpEnv(mdp: Mdp<St>, prev: Option<nat>, cur: Option<nat>)

  /** The tables are shaped and the recorded states are in range. */
  predicate Valid<St>(env: MdpEnv<St>)
  {
    && Shaped(env.mdp)
    && (env.prev.Some? ==> env.prev.value < |env.mdp.S|)
    && (env.cur.Some? ==> env.cur.value < |env.mdp.S|)
  }

  /** `reset`: draw the current state from I; the previous state is the same
      state, so the reward read right after a reset is R[s][s]. */
  function Reset<St>(env: MdpEnv<St>, rand: real): (r: MdpEnv<St>)
    requires Shaped(env.mdp)
    ensures Valid(r) && r.mdp == env.mdp && r.prev == r.cur
    ensures r.cur.Some? ==> Cumul(env.mdp.I, r.cur.value) >= rand
                            && forall j :: 0 <= j < r.cur.value ==> Cumul(env.mdp.I, j) < rand
    ensures r.cur.None? <==> forall j :: 0 <= j < |env.mdp.S| ==> Cumul(env.mdp.I, j) < rand
  {
    var s := SampleState(env.mdp.I, rand);
    MdpEnv(env.mdp, s, s)
  }

  /** The constructor: no states recorded yet, then a reset. */
  function NewEnv<St>(mdp: Mdp<St>, rand: real): (r: MdpEnv<St>)
    requires Shaped(mdp)
    ensures Valid(r) && r.mdp == mdp && r.prev == r.cur
    ensures r.cur.Some? ==> Cumul(mdp.I, r.cur.value) >= rand
                            && forall j :: 0 <= j < r.cur.value ==> Cumul(mdp.I, j) < rand
    ensures r.cur.None? <==> forall j :: 0 <= j < |mdp.S| ==> Cumul(mdp.I, j) < rand
  {
    Reset(MdpEnv(mdp, None, None), rand)
  }

  /** The action number: `A.index(name)` (ValueError when absent), or a numpy
      index into the action axis (negative counts from the end, IndexError
      when out of range). */
  function ResolveAction<St>(m: Mdp<St>, action: ActionRef): (r: Result<nat>)
    ensures r.Ok? ==> r.value < |m.A|
    ensures action.ByName? ==> (r.Ok? <==> action.name in m.A)
    ensures action.ByName? && r.Ok? ==> m.A[r.value] == action.name
    ensures action.ByName? && r.Err? ==> r.error == ValueError
    ensures action.ByIndex? ==> (r.Ok? <==> -|m.A| <= action.index < |m.A|)
    ensures action.ByIndex? && r.Ok? ==>
              r.value == if action.index < 0 then action.index + |m.A| else action.index
    ensures action.ByIndex? && r.Err? ==> r.error == IndexError
  {
    match action
    case ByName(name) =>
      (match IndexOf(m.A, name)
       case Some(a) => Ok(a)
       case None => Err(ValueError))
    case ByIndex(i) =>
      (match PyIndex(|m.A|, i)
       case Some(a) => Ok(a)
       case None => Err(IndexError))
  }

  /** `performAction`: the current state becomes the previous one and the
      new current state is drawn from P[cur][a]. Stepping from the None
      state is not modelled (the episode loop raises before reaching it). */
  function PerformAction<St>(env: MdpEnv<St>, action: ActionRef, rand: real): (r: Result<MdpEnv<St>>)
    requires Valid(env) && env.cur.Some?
    ensures r.Ok? <==> ResolveAction(env.mdp, action).Ok?
    ensures r.Err? ==> r.error == ResolveAction(env.mdp, action).error
    ensures r.Ok? ==> Valid(r.value) && r.value.mdp == env.mdp && r.value.prev == env.cur
    ensures r.Ok? ==>
              var row := env.mdp.P[env.cur.value][ResolveAction(env.mdp, action).value];
              && (r.value.cur.Some? ==> Cumul(row, r.value.cur.value) >= rand
                                        && forall j :: 0 <= j < r.value.cur.value ==> Cumul(row, j) < rand)
              && (r.value.cur.None? <==> forall j :: 0 <= j < |env.mdp.S| ==> Cumul(row, j) < rand)
  {
    match ResolveAction(env.mdp, action)
    case Err(e) => Err(e)
    case Ok(a) =>
      var s := SampleState(env.mdp.P[env.cur.value][a], rand);
      Ok(MdpEnv(env.mdp, env.cur, s))
  }

  /** `getReward`: R[prev][cur]. With a None state numpy returns an array,
      not a reward: modelled as None. */
  function GetReward<St>(env: MdpEnv<St>): (r: Option<real>)
    requires Valid(env)
    ensures r.Some? <==> env.prev.Some? && env.cur.Some?
    ensures r.Some? ==> r.value == env.mdp.R[env.prev.value][env.cur.value]
  {
    if env.prev.Some? && env.cur.Some? then Some(env.mdp.R[env.prev.value][env.cur.value]) else None
  }

  /** `getObservation`: the current state number; there is none exactly
      when a failed draw lost the state, which is when `isFinished` raises. */
  function GetObservation<St>(env: MdpEnv<St>): (r: Option<nat>)
    ensures Valid(env) ==> (r.None? <==> IsFinished(env).Err?)
    ensures Valid(env) && r.Some? ==> r.value < |env.mdp.S|
  {
    env.cur
  }

  /** `isFinished`: the terminal flag of the current state; indexing the
      list T with None raises TypeError. */
  function IsFinished<St>(env: MdpEnv<St>): (r: Result<bool>)
    requires Valid(env)
    ensures r.Err? <==> env.cur.None?
    ensures r.Err? ==> r.error == TypeError
    ensures r.Ok? ==> (r.value <==> IsTerminalState(env.mdp, env.cur.value))
  {
    match env.cur
    case None => Err(TypeError)
    case Some(s) => Ok(env.mdp.T[s])
  }

  /** `numActions`: the actions an agent may send by number are exactly
      0 .. numActions - 1 (and their negative aliases). */
  function NumActions<St>(env: MdpEnv<St>): (n: nat)
    ensures forall a: int :: 0 <= a < n ==> ResolveAction(env.mdp, ByIndex(a)) == Ok(a)
    ensures ResolveAction(env.mdp, ByIndex(n)).Err?
  {
    |env.mdp.A|
  }

  /** `numStates`: every state the environment can be in is below it, and it
      is the number of states every table of the MDP describes. */
  function NumStates<St>(env: MdpEnv<St>): (n: nat)
    ensures Valid(env) ==> (env.cur.Some? ==> env.cur.value < n) && (env.prev.Some? ==> env.prev.value < n)
    ensures Shaped(env.mdp) ==>
              n == |env.mdp.T| && n == |env.mdp.I| && n == |env.mdp.P| && n == |env.mdp.R|
  {
    |env.mdp.S|
  }

  // ---------------------------------------------------------------------
  // Properties of a step
  // ---------------------------------------------------------------------

  /** Every observation of a valid environment is a state number below
      `numStates`. */
  lemma ObservationInRange<St>(env: MdpEnv<St>)
    requires Valid(env)
    ensures GetObservation(env).Some? ==> GetObservation(env).value < NumStates(env)
  {
  }

  /** Right after a reset that drew state s, the reward is R[s][s]. */
  lemma RewardAfterReset<St>(env: MdpEnv<St>, rand: real)
    requires Shaped(env.mdp)
    ensures var e := Reset(env, rand);
            e.cur.Some? ==> GetReward(e) == Some(env.mdp.R[e.cur.value][e.cur.value])
  {
  }

  /** A step from s that lands in t (with a positive draw) reports the
      reward R[s][t] of that transition, and t was reachable: P[s][a][t] > 0. */
  lemma StepRewardIsTransitionReward<St>(env: MdpEnv<St>, a: nat, rand: real)
    requires Valid(env) && env.cur.Some? && a < |env.mdp.A| && rand > 0.0
    ensures var r := PerformAction(env, ByIndex(a), rand);
            r.Ok? && (r.value.cur.Some? ==>
              && GetReward(r.value) == Some(env.mdp.R[env.cur.value][r.value.cur.value])
              && env.mdp.P[env.cur.value][a][r.value.cur.value] > 0.0)
  {
    SampledStateHasMass(env.mdp.P[env.cur.value][a], rand);
  }

  /** From a state whose rows are all zero (a terminal state, or a
      non-terminal state with no way out) any action with a positive draw
      leaves no current state, and `isFinished` then raises. */
  lemma StepFromZeroRowsLosesState<St>(env: MdpEnv<St>, a: nat, rand: real)
    requires Valid(env) && env.cur.Some? && a < |env.mdp.A| && rand > 0.0
    requires ZeroRows(env.mdp, env.cur.value)
    ensures var r := PerformAction(env, ByIndex(a), rand);
            r.Ok? && r.value.cur.None? && IsFinished(r.value) == Err(TypeError)
  {
    ZeroRowSamplesNothing(env.mdp.P[env.cur.value][a], rand);
  }

  /** In a normalized MDP, a draw in [0, 1) always yields an initial state,
      and a step from a non-terminal state always yields a successor. */
  lemma NormalizedMdpAlwaysSamples<St>(env: MdpEnv<St>, a: nat, rand: real)
    requires Valid(env) && Normalized(env.mdp) && 0.0 <= rand < 1.0 && |env.mdp.S| > 0
    requires env.cur.Some? && !env.mdp.T[env.cur.value] && a < |env.mdp.A|
    ensures Reset(env, rand).cur.Some?
    ensures PerformAction(env, ByIndex(a), rand).value.cur.Some?
  {
    FullRowAlwaysSamples(env.mdp.I, rand);
    FullRowAlwaysSamples(env.mdp.P[env.cur.value][a], rand);
  }
}
