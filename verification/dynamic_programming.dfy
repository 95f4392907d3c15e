/** Iterative policy evaluation and value iteration over an MDP.

    Both algorithms start from V = 0 and repeat in-place sweeps over the
    states in index order: the update of state i already reads the new values
    of states 0..i-1 (a Gauss-Seidel sweep). A sweep records `delta`, the
    largest DROP old - new seen in that sweep (rises never count), and the
    loop stops after the first sweep whose delta is below 0.01, or after
    `n_iterations` sweeps. */
module DynamicProgramming {
  import opened Wrappers
  import opened Numeric
  import opened MarkovDecisionProcess

  /** The stop threshold (`epsilon = 0.01` in both algorithms). */
  const Tolerance: real := 0.01

  /** The two Bellman backups share one sweep: the expectation backup under
      a fixed policy, and the optimality backup (max over actions). */
  datatype Backup = Expectation(policy: seq<seq<real>>) | Optimality

  /** A policy table of shape |S| x |A|. */
  predicate PolicyShaped<St>(m: Mdp<St>, policy: seq<seq<real>>)
  {
    |policy| == |m.S| && forall s :: 0 <= s < |policy| ==> |policy[s]| == |m.A|
  }

  /** What a backup needs: shaped tables, a shaped policy for the
      expectation backup, and at least one action for `np.max` whenever
      there is a state to back up. */
  predicate Admissible<St>(m: Mdp<St>, b: Backup)
  {
    && Shaped(m)
    && match b
       case Expectation(policy) => PolicyShaped(m, policy)
       case Optimality => |m.A| > 0 || |m.S| == 0
  }

  /** `R[i] + discount * V`: the return of landing in each successor. */
  function Targets<St>(m: Mdp<St>, V: seq<real>, i: nat): (y: seq<real>)
    requires Shaped(m) && |V| == |m.S| && i < |m.S|
    ensures |y| == |m.S|
  {
    seq(|V|, t requires 0 <= t < |V| => m.R[i][t] + m.discount * V[t])
  }

  /** One-step lookahead of action a in state i:
      sum over s' of P[i][a][s'] * (R[i][s'] + discount * V[s']). */
  function Lookahead<St>(m: Mdp<St>, V: seq<real>, i: nat, a: nat): real
    requires Shaped(m) && |V| == |m.S| && i < |m.S| && a < |m.A|
  {
    Dot(m.P[i][a], Targets(m, V, i))
  }

  /** The lookahead of every action (`tmp` in the source). */
  function QRow<St>(m: Mdp<St>, V: seq<real>, i: nat): (q: seq<real>)
    requires Shaped(m) && |V| == |m.S| && i < |m.S|
    ensures |q| == |m.A|
  {
    seq(|m.A|, a requires 0 <= a < |m.A| => Lookahead(m, V, i, a))
  }

  /** The new value of state i computed from the current vector V. */
  function BackupValue<St>(m: Mdp<St>, b: Backup, V: seq<real>, i: nat): (v: real)
    requires Admissible(m, b) && |V| == |m.S| && i < |m.S|
    ensures b.Optimality? ==>
              && (forall a :: 0 <= a < |m.A| ==> Lookahead(m, V, i, a) <= v)
              && exists a :: 0 <= a < |m.A| && Lookahead(m, V, i, a) == v
  {
    match b
    case Expectation(policy) => Dot(policy[i], QRow(m, V, i))
    case Optimality =>
      var q := QRow(m, V, i);
      assert forall a :: 0 <= a < |m.A| ==> q[a] == Lookahead(m, V, i, a);
      Max(q)
  }

  /** Under a policy whose row for state i is a distribution, the
      expectation backup never exceeds the optimality backup. */
  lemma ExpectationAtMostOptimal<St>(m: Mdp<St>, policy: seq<seq<real>>, V: seq<real>, i: nat)
    requires Shaped(m) && PolicyShaped(m, policy) && |V| == |m.S| && i < |m.S| && |m.A| > 0
    requires forall a :: 0 <= a < |m.A| ==> policy[i][a] >= 0.0
    requires Sum(policy[i]) == 1.0
    ensures BackupValue(m, Expectation(policy), V, i) <= BackupValue(m, Optimality, V, i)
  {
    var q := QRow(m, V, i);
    WeightedSumBelow(policy[i], q, Max(q));
  }

  /** A state whose transition rows are all zero backs up to 0 under both
      backups, whatever V, the rewards and the policy are. */
  lemma ZeroRowsBackUpToZero<St>(m: Mdp<St>, b: Backup, V: seq<real>, i: nat)
    requires Admissible(m, b) && |V| == |m.S| && i < |m.S| && ZeroRows(m, i)
    ensures BackupValue(m, b, V, i) == 0.0
  {
    var q := QRow(m, V, i);
    forall a | 0 <= a < |m.A|
      ensures q[a] == 0.0
    {
      DotZeroLeft(m.P[i][a], Targets(m, V, i));
    }
    match b
    case Expectation(policy) =>
      DotZeroRight(policy[i], q);
    case Optimality =>
  }

  // ---------------------------------------------------------------------
  // One sweep
  // ---------------------------------------------------------------------

  datatype SweepResult = SweepResult(values: seq<real>, delta: real)

  /** The backup of an admissible MDP as a total update rule: the new value
      of state i computed from a value vector (0 outside the tables). */
  function Backer<St>(m: Mdp<St>, b: Backup): (seq<real>, nat) -> real
  {
    (W: seq<real>, i: nat) =>
      if Admissible(m, b) && |W| == |m.S| && i < |m.S| then BackupValue(m, b, W, i) else 0.0
  }

  /** The first k in-place updates of a sweep with update rule `f` that
      starts from V: states 0..k-1 hold new values, states k.. still hold
      their values from V, and `delta` is the largest drop among the updated
      states (0 if none). */
  function SweepPrefix(f: (seq<real>, nat) -> real, V: seq<real>, k: nat): (r: SweepResult)
    requires k <= |V|
    ensures |r.values| == |V|
    ensures forall j :: k <= j < |V| ==> r.values[j] == V[j]
    ensures 0.0 <= r.delta
    ensures forall j :: 0 <= j < k ==> V[j] - r.values[j] <= r.delta
    ensures r.delta == 0.0 || exists j :: 0 <= j < k && r.delta == V[j] - r.values[j]
    decreases k
  {
    if k == 0 then SweepResult(V, 0.0)
    else
      var s := SweepPrefix(f, V, k - 1);
      var before := s.values[k - 1];
      var after := f(s.values, k - 1);
      SweepResult(s.values[k - 1 := after], MaxReal(s.delta, before - after))
  }

  /** One full sweep over all states: `delta` is the largest drop old - new
      over all states, or 0 when no state dropped. */
  function Sweep<St>(m: Mdp<St>, b: Backup, V: seq<real>): (r: SweepResult)
    requires Admissible(m, b) && |V| == |m.S|
    ensures |r.values| == |V| && 0.0 <= r.delta
    ensures forall j :: 0 <= j < |V| ==> V[j] - r.values[j] <= r.delta
    ensures r.delta == 0.0 || exists j :: 0 <= j < |V| && r.delta == V[j] - r.values[j]
  {
    SweepPrefix(Backer(m, b), V, |V|)
  }

  /** The reference meaning of a sweep: W is what an in-place sweep from V
      produces when the new value of each state j is its backup computed from
      the new values of the states before j and the old values of j and the
      states after it. */
  ghost predicate IsGaussSeidelSweep<St>(m: Mdp<St>, b: Backup, V: seq<real>, W: seq<real>)
    requires Admissible(m, b) && |V| == |m.S|
  {
    && |W| == |V|
    && forall j :: 0 <= j < |V| ==> W[j] == BackupValue(m, b, W[..j] + V[j..], j)
  }

  /** The same meaning for any update rule. */
  ghost predicate IsInPlaceSweep(f: (seq<real>, nat) -> real, V: seq<real>, W: seq<real>)
  {
    && |W| == |V|
    && forall j :: 0 <= j < |V| ==> W[j] == f(W[..j] + V[j..], j)
  }

  /** Overwriting entry k-1 of a vector that agrees with V from k-1 on:
      the result's first k-1 entries, and every prefix of them, are the old
      ones, and the old vector is that prefix followed by V. */
  lemma UpdateSplit(V: seq<real>, s: seq<real>, k: nat, x: real)
    requires |s| == |V| && 1 <= k <= |V|
    requires forall j :: k - 1 <= j < |V| ==> s[j] == V[j]
    ensures s == s[k - 1 := x][..k - 1] + V[k - 1..]
    ensures forall j :: 0 <= j < k - 1 ==> s[k - 1 := x][..j] == s[..j] && s[k - 1 := x][j] == s[j]
  {
    var W := s[k - 1 := x];
    assert |s| == |W[..k - 1] + V[k - 1..]|;
    forall j | 0 <= j < |s|
      ensures s[j] == (W[..k - 1] + V[k - 1..])[j]
    {
    }
  }

  /** Writing W[k-1] into a vector that holds W before k-1 and V from k-1 on
      extends the W part by one entry. */
  lemma ExtendPrefix(V: seq<real>, W: seq<real>, s: seq<real>, k: nat)
    requires |W| == |V| && 1 <= k <= |V| && s == W[..k - 1] + V[k - 1..]
    ensures s[k - 1 := W[k - 1]] == W[..k] + V[k..]
  {
    var r := s[k - 1 := W[k - 1]];
    forall j | 0 <= j < |r|
      ensures r[j] == (W[..k] + V[k..])[j]
    {
    }
  }

  lemma {:induction false} SweepPrefixIsInPlace(f: (seq<real>, nat) -> real, V: seq<real>, k: nat)
    requires k <= |V|
    ensures var W := SweepPrefix(f, V, k).values;
            forall j :: 0 <= j < k ==> W[j] == f(W[..j] + V[j..], j)
    decreases k
  {
    if k > 0 {
      SweepPrefixIsInPlace(f, V, k - 1);
      var s := SweepPrefix(f, V, k - 1).values;
      UpdateSplit(V, s, k, f(s, k - 1));
    }
  }

  lemma {:induction false} InPlacePrefixesAgree(f: (seq<real>, nat) -> real, V: seq<real>, W: seq<real>, k: nat)
    requires k <= |V| && IsInPlaceSweep(f, V, W)
    ensures SweepPrefix(f, V, k).values == W[..k] + V[k..]
    decreases k
  {
    if k == 0 {
      assert V[0..] == V;
    } else {
      InPlacePrefixesAgree(f, V, W, k - 1);
      var s := SweepPrefix(f, V, k - 1).values;
      assert f(s, k - 1) == W[k - 1];
      ExtendPrefix(V, W, s, k);
    }
  }

  /** An in-place sweep is determined by its update rule: the sweep's result
      satisfies the reference definition, and it is the only vector that
      does. */
  lemma InPlaceSweepIsUnique(f: (seq<real>, nat) -> real, V: seq<real>, W: seq<real>)
    ensures IsInPlaceSweep(f, V, W) <==> W == SweepPrefix(f, V, |V|).values
  {
    if W == SweepPrefix(f, V, |V|).values {
      SweepPrefixIsInPlace(f, V, |V|);
    }
    if IsInPlaceSweep(f, V, W) {
      InPlacePrefixesAgree(f, V, W, |V|);
      assert V[|V|..] == [];
      assert W[..|V|] == W;
    }
  }

  /** Under the MDP's backup the two reference definitions coincide. */
  lemma GaussSeidelIsInPlace<St>(m: Mdp<St>, b: Backup, V: seq<real>, W: seq<real>)
    requires Admissible(m, b) && |V| == |m.S|
    ensures IsGaussSeidelSweep(m, b, V, W) <==> IsInPlaceSweep(Backer(m, b), V, W)
  {
    if |W| == |V| {
      forall j | 0 <= j < |V|
        ensures Backer(m, b)(W[..j] + V[j..], j) == BackupValue(m, b, W[..j] + V[j..], j)
      {
      }
    }
  }

  /** The value a sweep leaves in state j is the backup of j computed from
      the new values before j and the old values from j on. */
  lemma SweepValueIsBackup<St>(m: Mdp<St>, b: Backup, V: seq<real>, j: nat)
    requires Admissible(m, b) && |V| == |m.S| && j < |V|
    ensures var W := Sweep(m, b, V).values;
            W[j] == BackupValue(m, b, W[..j] + V[j..], j)
  {
    SweepPrefixIsInPlace(Backer(m, b), V, |V|);
    var W := Sweep(m, b, V).values;
    assert W[j] == Backer(m, b)(W[..j] + V[j..], j);
  }

  /** A sweep is exactly the Gauss-Seidel update: the sweep's result
      satisfies the reference definition, and it is the only vector that
      does. */
  lemma SweepIsGaussSeidel<St>(m: Mdp<St>, b: Backup, V: seq<real>, W: seq<real>)
    requires Admissible(m, b) && |V| == |m.S|
    ensures IsGaussSeidelSweep(m, b, V, W) <==> W == Sweep(m, b, V).values
  {
    GaussSeidelIsInPlace(m, b, V, W);
    InPlaceSweepIsUnique(Backer(m, b), V, W);
  }

  /** The stop test of a sweep passes exactly when no state dropped by the
      tolerance or more; a state whose value rises never blocks it. */
  lemma SweepStopsIffNoStateDrops<St>(m: Mdp<St>, b: Backup, V: seq<real>)
    requires Admissible(m, b) && |V| == |m.S|
    ensures var r := Sweep(m, b, V);
            r.delta < Tolerance <==> forall j :: 0 <= j < |V| ==> V[j] - r.values[j] < Tolerance
  {
  }

  // ---------------------------------------------------------------------
  // The sweep loop
  // ---------------------------------------------------------------------

  /** Outcome of the sweep loop: final values, number of sweeps made, and the
      delta of the last sweep (0 when no sweep ran). */
  datatype DpRun = DpRun(values: seq<real>, sweeps: nat, lastDelta: real)

  /** `for _ in range(n)`: a negative count runs no iteration. */
  function Budget(nIterations: int): nat
  {
    if nIterations < 0 then 0 else nIterations
  }

  /** The values after k sweeps from V, regardless of any stop test. */
  function SweepN<St>(m: Mdp<St>, b: Backup, V: seq<real>, k: nat): (W: seq<real>)
    requires Admissible(m, b) && |V| == |m.S|
    ensures |W| == |V|
    decreases k
  {
    if k == 0 then V else SweepN(m, b, Sweep(m, b, V).values, k - 1)
  }

  /** The delta recorded by sweep number k + 1 from V. */
  function SweepDelta<St>(m: Mdp<St>, b: Backup, V: seq<real>, k: nat): real
    requires Admissible(m, b) && |V| == |m.S|
  {
    Sweep(m, b, SweepN(m, b, V, k)).delta
  }

  /** The sweep count k at which the loop with the given budget stops: at
      least one sweep when the budget allows any; every sweep before the
      k-th recorded a delta of at least the tolerance; and the k-th recorded
      one below it, unless the budget ran out. */
  predicate StopsAt<St>(m: Mdp<St>, b: Backup, V: seq<real>, budget: nat, k: nat)
    requires Admissible(m, b) && |V| == |m.S|
  {
    && k <= budget
    && (budget > 0 <==> k > 0)
    && (forall j :: 0 <= j < k - 1 ==> SweepDelta(m, b, V, j) >= Tolerance)
    && (0 < k < budget ==> SweepDelta(m, b, V, k - 1) < Tolerance)
  }

  /** The stop rule leaves no choice: at most one sweep count satisfies it. */
  lemma StopsAtIsUnique<St>(m: Mdp<St>, b: Backup, V: seq<real>, budget: nat, k1: nat, k2: nat)
    requires Admissible(m, b) && |V| == |m.S|
    requires StopsAt(m, b, V, budget, k1) && StopsAt(m, b, V, budget, k2)
    ensures k1 == k2
  {
  }

  /** A first sweep that does not stop the loop, followed by the run from
      its values with one sweep less of budget, is the run from V. */
  lemma PrependSweep<St>(m: Mdp<St>, b: Backup, V: seq<real>, budget: nat, rest: DpRun)
    requires Admissible(m, b) && |V| == |m.S| && budget >= 2
    requires Sweep(m, b, V).delta >= Tolerance
    requires StopsAt(m, b, Sweep(m, b, V).values, budget - 1, rest.sweeps)
    requires rest.values == SweepN(m, b, Sweep(m, b, V).values, rest.sweeps)
    requires rest.sweeps > 0 ==> rest.lastDelta == SweepDelta(m, b, Sweep(m, b, V).values, rest.sweeps - 1)
    ensures StopsAt(m, b, V, budget, rest.sweeps + 1)
    ensures rest.values == SweepN(m, b, V, rest.sweeps + 1)
    ensures rest.lastDelta == SweepDelta(m, b, V, rest.sweeps)
  {
    var W := Sweep(m, b, V).values;
    var k := rest.sweeps;
    OneSweep(m, b, V);
    forall j | 0 <= j < k
      ensures SweepDelta(m, b, V, j) >= Tolerance
    {
      if j > 0 {
        ShiftOne(m, b, V, j - 1);
        assert SweepDelta(m, b, W, j - 1) >= Tolerance;
      }
    }
    ShiftOne(m, b, V, k - 1);
    ShiftOne(m, b, V, k);
  }

  /** Sweeping j + 1 times from V is sweeping j times from V's first sweep. */
  lemma ShiftOne<St>(m: Mdp<St>, b: Backup, V: seq<real>, j: nat)
    requires Admissible(m, b) && |V| == |m.S|
    ensures SweepN(m, b, V, j + 1) == SweepN(m, b, Sweep(m, b, V).values, j)
    ensures SweepDelta(m, b, V, j + 1) == SweepDelta(m, b, Sweep(m, b, V).values, j)
  {
  }

  /** The first sweep of a run is the sweep of V. */
  lemma OneSweep<St>(m: Mdp<St>, b: Backup, V: seq<real>)
    requires Admissible(m, b) && |V| == |m.S|
    ensures SweepN(m, b, V, 1) == Sweep(m, b, V).values
    ensures SweepDelta(m, b, V, 0) == Sweep(m, b, V).delta
  {
  }

  /** Up to `budget` sweeps from V, stopping after the first sweep whose
      delta is below the tolerance: the result is V swept as many times as
      the stop rule allows, and the last delta is that of the final sweep. */
  function Iterate<St>(m: Mdp<St>, b: Backup, V: seq<real>, budget: nat): (r: DpRun)
    requires Admissible(m, b) && |V| == |m.S|
    ensures StopsAt(m, b, V, budget, r.sweeps)
    ensures r.values == SweepN(m, b, V, r.sweeps)
    ensures r.sweeps > 0 ==> r.lastDelta == SweepDelta(m, b, V, r.sweeps - 1)
    decreases budget
  {
    if budget == 0 then DpRun(V, 0, 0.0)
    else
      var s := Sweep(m, b, V);
      OneSweep(m, b, V);
      if s.delta < Tolerance || budget == 1 then DpRun(s.values, 1, s.delta)
      else
        var rest := Iterate(m, b, s.values, budget - 1);
        PrependSweep(m, b, V, budget, rest);
        rest.(sweeps := rest.sweeps + 1)
  }

  /** A sweep sets a zero-row state to 0, whatever value it had. */
  lemma SweepZeroesZeroRow<St>(m: Mdp<St>, b: Backup, V: seq<real>, i: nat)
    requires Admissible(m, b) && |V| == |m.S| && i < |m.S| && ZeroRows(m, i)
    ensures Sweep(m, b, V).values[i] == 0.0
  {
    var s := Sweep(m, b, V);
    SweepValueIsBackup(m, b, V, i);
    ZeroRowsBackUpToZero(m, b, s.values[..i] + V[i..], i);
  }

  /** A state with all-zero transition rows that starts at 0 is still 0 after
      any number of sweeps. */
  lemma {:induction false} ZeroRowStateStaysZero<St>(m: Mdp<St>, b: Backup, V: seq<real>, k: nat, i: nat)
    requires Admissible(m, b) && |V| == |m.S| && i < |m.S| && ZeroRows(m, i) && V[i] == 0.0
    ensures SweepN(m, b, V, k)[i] == 0.0
    decreases k
  {
    if k > 0 {
      SweepZeroesZeroRow(m, b, V, i);
      ZeroRowStateStaysZero(m, b, Sweep(m, b, V).values, k - 1, i);
    }
  }

  lemma ZeroRowStatesStayZero<St>(m: Mdp<St>, b: Backup, budget: nat)
    requires Admissible(m, b)
    ensures forall i :: 0 <= i < |m.S| && ZeroRows(m, i) ==>
              Iterate(m, b, Zeros(|m.S|), budget).values[i] == 0.0
  {
    var r := Iterate(m, b, Zeros(|m.S|), budget);
    forall i | 0 <= i < |m.S| && ZeroRows(m, i)
      ensures r.values[i] == 0.0
    {
      ZeroRowStateStaysZero(m, b, Zeros(|m.S|), r.sweeps, i);
    }
  }

  /** Starting from V = 0 with a budget of at least one sweep: if no value
      falls below 0 in the first sweep, the loop stops after exactly that
      sweep. */
  lemma NoDropStopsAfterOneSweep<St>(m: Mdp<St>, b: Backup, budget: nat)
    requires Admissible(m, b) && budget >= 1
    requires forall j :: 0 <= j < |m.S| ==> Sweep(m, b, Zeros(|m.S|)).values[j] >= 0.0
    ensures var r := Iterate(m, b, Zeros(|m.S|), budget);
            r.sweeps == 1 && r.values == Sweep(m, b, Zeros(|m.S|)).values
  {
    var s := Sweep(m, b, Zeros(|m.S|));
    assert s.delta == 0.0;
  }

  // ---------------------------------------------------------------------
  // The two algorithms
  // ---------------------------------------------------------------------

  /** `policyEvaluation`: in-place expectation sweeps from V = 0 under a
      fixed policy; returns one value per state. */
  function PolicyEvaluation<St>(m: Mdp<St>, policy: seq<seq<real>>, nIterations: int := 1000): (V: seq<real>)
    requires Shaped(m) && PolicyShaped(m, policy)
    ensures |V| == |m.S|
    ensures exists k :: StopsAt(m, Expectation(policy), Zeros(|m.S|), Budget(nIterations), k)
                        && V == SweepN(m, Expectation(policy), Zeros(|m.S|), k)
    ensures forall i :: 0 <= i < |m.S| && ZeroRows(m, i) ==> V[i] == 0.0
  {
    ZeroRowStatesStayZero(m, Expectation(policy), Budget(nIterations));
    Iterate(m, Expectation(policy), Zeros(|m.S|), Budget(nIterations)).values
  }

  /** The policy created when none is given: 1/|A| everywhere. */
  function UniformPolicy(nStates: nat, nActions: nat): (p: seq<seq<real>>)
    requires nActions > 0
    ensures |p| == nStates
    ensures forall s :: 0 <= s < nStates ==>
              |p[s]| == nActions && Sum(p[s]) == 1.0
              && forall a :: 0 <= a < nActions ==> p[s][a] == 1.0 / (nActions as real)
  {
    var row := seq(nActions, _ => 1.0 / (nActions as real));
    SumConst(row, 1.0 / (nActions as real));
    seq(nStates, _ => row)
  }

  /** Policy extraction as written: every cell of row i receives the index
      of the first action maximising the lookahead, so the row is not a
      probability distribution. */
  function ExtractPolicy<St>(m: Mdp<St>, V: seq<real>, policy: seq<seq<real>>): (p: seq<seq<real>>)
    requires Shaped(m) && |V| == |m.S| && PolicyShaped(m, policy) && (|m.A| > 0 || |m.S| == 0)
    ensures PolicyShaped(m, p)
    ensures forall i, j :: 0 <= i < |m.S| && 0 <= j < |m.A| ==>
              p[i][j] == ArgMax(QRow(m, V, i)) as real
  {
    seq(|policy|, i requires 0 <= i < |policy| =>
      seq(|policy[i]|, _ => ArgMax(QRow(m, V, i)) as real))
  }

  /** Extraction overwrites every cell of the policy it is given: its result
      does not depend on that policy's contents. */
  lemma ExtractionOverwritesPolicy<St>(m: Mdp<St>, V: seq<real>, p1: seq<seq<real>>, p2: seq<seq<real>>)
    requires Shaped(m) && |V| == |m.S| && PolicyShaped(m, p1) && PolicyShaped(m, p2)
    requires |m.A| > 0 || |m.S| == 0
    ensures ExtractPolicy(m, V, p1) == ExtractPolicy(m, V, p2)
  {
    var e1 := ExtractPolicy(m, V, p1);
    var e2 := ExtractPolicy(m, V, p2);
    forall i | 0 <= i < |m.S|
      ensures e1[i] == e2[i]
    {
    }
  }

  /** `valueIteration`: optimality sweeps from V = 0, then policy extraction
      into the given policy, or into a fresh uniform one when none is given. */
  function ValueIteration<St>(m: Mdp<St>, policy: Option<seq<seq<real>>> := None, nIterations: int := 1000)
    : (r: (seq<real>, seq<seq<real>>))
    requires Shaped(m) && (|m.A| > 0 || |m.S| == 0)
    requires policy.Some? ==> PolicyShaped(m, policy.value)
    requires policy.None? ==> |m.A| > 0
    ensures |r.0| == |m.S| && PolicyShaped(m, r.1)
    ensures exists k :: StopsAt(m, Optimality, Zeros(|m.S|), Budget(nIterations), k)
                        && r.0 == SweepN(m, Optimality, Zeros(|m.S|), k)
    ensures forall i :: 0 <= i < |m.S| && ZeroRows(m, i) ==> r.0[i] == 0.0
    ensures forall i, j :: 0 <= i < |m.S| && 0 <= j < |m.A| ==>
              r.1[i][j] == ArgMax(QRow(m, r.0, i)) as real
  {
    var initial := match policy
                   case Some(p) => p
                   case None => UniformPolicy(|m.S|, |m.A|);
    ZeroRowStatesStayZero(m, Optimality, Budget(nIterations));
    var V := Iterate(m, Optimality, Zeros(|m.S|), Budget(nIterations)).values;
    (V, ExtractPolicy(m, V, initial))
  }

  // ---------------------------------------------------------------------
  // The evidently intended extraction
  // ---------------------------------------------------------------------

  /** Deterministic greedy extraction: row i is one-hot on the first action
      maximising the lookahead. */
  function ExtractGreedyPolicy<St>(m: Mdp<St>, V: seq<real>, policy: seq<seq<real>>): (p: seq<seq<real>>)
    requires Shaped(m) && |V| == |m.S| && PolicyShaped(m, policy) && (|m.A| > 0 || |m.S| == 0)
    ensures PolicyShaped(m, p)
    ensures forall i :: 0 <= i < |m.S| ==>
              Sum(p[i]) == 1.0 && ArgMax(p[i]) == ArgMax(QRow(m, V, i))
              && forall j :: 0 <= j < |m.A| ==> p[i][j] == (if j == ArgMax(QRow(m, V, i)) then 1.0 else 0.0)
  {
    var p := seq(|policy|, i requires 0 <= i < |policy| =>
               var k := ArgMax(QRow(m, V, i));
               seq(|policy[i]|, j => if j == k then 1.0 else 0.0));
    assert forall i :: 0 <= i < |m.S| ==> Sum(p[i]) == 1.0 && ArgMax(p[i]) == ArgMax(QRow(m, V, i)) by {
      forall i | 0 <= i < |m.S|
        ensures Sum(p[i]) == 1.0 && ArgMax(p[i]) == ArgMax(QRow(m, V, i))
      {
        var k := ArgMax(QRow(m, V, i));
        SumPoint(p[i], k);
        ArgMaxIsFirstMaximiser(p[i], k);
      }
    }
    p
  }

  /** Evaluating the greedy policy for one backup gives exactly the
      optimality backup: the round trip the extracted policy should support. */
  lemma GreedyPolicyReproducesOptimalBackup<St>(m: Mdp<St>, V: seq<real>, policy: seq<seq<real>>, i: nat)
    requires Shaped(m) && |V| == |m.S| && PolicyShaped(m, policy) && |m.A| > 0 && i < |m.S|
    ensures var g := ExtractGreedyPolicy(m, V, policy);
            BackupValue(m, Expectation(g), V, i) == BackupValue(m, Optimality, V, i)
  {
    var g := ExtractGreedyPolicy(m, V, policy);
    var q := QRow(m, V, i);
    DotOneHot(g[i], q, ArgMax(q));
  }

  lemma GreedyPolicyReproducesOptimalBackups<St>(m: Mdp<St>, V: seq<real>, policy: seq<seq<real>>)
    requires Shaped(m) && |V| == |m.S| && PolicyShaped(m, policy) && (|m.A| > 0 || |m.S| == 0)
    ensures var g := ExtractGreedyPolicy(m, V, policy);
            forall i :: 0 <= i < |m.S| ==>
              BackupValue(m, Expectation(g), V, i) == BackupValue(m, Optimality, V, i)
  {
    forall i | 0 <= i < |m.S|
      ensures BackupValue(m, Expectation(ExtractGreedyPolicy(m, V, policy)), V, i) == BackupValue(m, Optimality, V, i)
    {
      GreedyPolicyReproducesOptimalBackup(m, V, policy, i);
    }
  }

  /** Value iteration with the one-hot extraction: the same values as
      `ValueIteration`, and a deterministic policy whose expectation backup
      reproduces the optimality backup in every state. */
  function GreedyValueIteration<St>(m: Mdp<St>, policy: Option<seq<seq<real>>> := None, nIterations: int := 1000)
    : (r: (seq<real>, seq<seq<real>>))
    requires Shaped(m) && (|m.A| > 0 || |m.S| == 0)
    requires policy.Some? ==> PolicyShaped(m, policy.value)
    requires policy.None? ==> |m.A| > 0
    ensures |r.0| == |m.S| && PolicyShaped(m, r.1)
    ensures r.0 == ValueIteration(m, policy, nIterations).0
    ensures forall i :: 0 <= i < |m.S| ==>
              Sum(r.1[i]) == 1.0
              && forall j :: 0 <= j < |m.A| ==> r.1[i][j] == (if j == ArgMax(QRow(m, r.0, i)) then 1.0 else 0.0)
    ensures forall i :: 0 <= i < |m.S| ==>
              BackupValue(m, Expectation(r.1), r.0, i) == BackupValue(m, Optimality, r.0, i)
  {
    var initial := match policy
                   case Some(p) => p
                   case None => UniformPolicy(|m.S|, |m.A|);
    var V := ValueIteration(m, policy, nIterations).0;
    GreedyPolicyReproducesOptimalBackups(m, V, initial);
    (V, ExtractGreedyPolicy(m, V, initial))
  }
}
